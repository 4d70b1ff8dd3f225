/** Masked execution of the compiler's if/else idiom.  Structured lane code is
    laid out as the instructions the kernels use, with or without the EXECZ
    skips, and running them is the same as running every active lane alone. */
module Simt {
  import opened Words
  import opened Isa
  import opened CoreSpec

  /** Straight-line vector code with nested two-armed conditionals.  `save` is
      the scalar register the idiom keeps EXEC in. */
  datatype Code =
    | Done
    | Op(op: VBinary, dst: VIdx, x: VOperand, y: VOperand, next: Code)
    | If(save: SIdx, cond: VCompare, x: VOperand, y: VOperand,
         skipThen: bool, thn: Code, skipElse: bool, els: Code, next: Code)

  function Flag(b: bool): nat { if b then 1 else 0 }

  function Length(code: Code): nat {
    match code
    case Done => 0
    case Op(_, _, _, _, next) => 1 + Length(next)
    case If(_, _, _, _, st, thn, se, els, next) =>
      2 + Flag(st) + Length(thn) + 2 + Flag(se) + Length(els) + 1 + Length(next)
  }

  // Where the pieces of a conditional that starts at pc land.
  function ThenAt(code: Code, pc: nat): nat requires code.If? { pc + 2 + Flag(code.skipThen) }
  function FlipAt(code: Code, pc: nat): nat requires code.If? { ThenAt(code, pc) + Length(code.thn) }
  function ElseAt(code: Code, pc: nat): nat requires code.If? { FlipAt(code, pc) + 2 + Flag(code.skipElse) }
  function JoinAt(code: Code, pc: nat): nat requires code.If? { ElseAt(code, pc) + Length(code.els) }

  predicate Holds(prog: Program, pc: nat, op: Opcode) {
    pc < |prog| && prog[pc].op == op
  }

  /** The program holds the compiled form of `code` at pc. */
  predicate Laid(prog: Program, pc: nat, code: Code)
    decreases code
  {
    match code
    case Done => true
    case Op(op, dst, x, y, next) => Holds(prog, pc, VBin(op, dst, x, y)) && Laid(prog, pc + 1, next)
    case If(k, cond, x, y, skipThen, thn, skipElse, els, next) =>
      && Holds(prog, pc, SMov(SReg(k), ExecLo))
      && Holds(prog, pc + 1, VCmpx(cond, x, y))
      && (skipThen ==> Holds(prog, pc + 2, SBranch(ExecZ, FlipAt(code, pc))))
      && Laid(prog, ThenAt(code, pc), thn)
      && Holds(prog, FlipAt(code, pc), SBin(SXorB32, SReg(k), ExecLo, SReg(k)))
      && Holds(prog, FlipAt(code, pc) + 1, SSaveExec(Andn2SaveExec, SReg(k), SReg(k)))
      && (skipElse ==> Holds(prog, FlipAt(code, pc) + 2, SBranch(ExecZ, JoinAt(code, pc))))
      && Laid(prog, ElseAt(code, pc), els)
      && Holds(prog, JoinAt(code, pc), SBin(SOrB32, ExecLo, ExecLo, SReg(k)))
      && Laid(prog, JoinAt(code, pc) + 1, next)
  }

  /** The instructions themselves, for code placed at pc. */
  function Emit(code: Code, pc: nat): (ops: seq<Opcode>)
    ensures |ops| == Length(code)
    decreases code
  {
    match code
    case Done => []
    case Op(op, dst, x, y, next) => [VBin(op, dst, x, y)] + Emit(next, pc + 1)
    case If(k, cond, x, y, skipThen, thn, skipElse, els, next) =>
      [SMov(SReg(k), ExecLo), VCmpx(cond, x, y)]
      + (if skipThen then [SBranch(ExecZ, FlipAt(code, pc))] else [])
      + Emit(thn, ThenAt(code, pc))
      + [SBin(SXorB32, SReg(k), ExecLo, SReg(k)), SSaveExec(Andn2SaveExec, SReg(k), SReg(k))]
      + (if skipElse then [SBranch(ExecZ, JoinAt(code, pc))] else [])
      + Emit(els, ElseAt(code, pc))
      + [SBin(SOrB32, ExecLo, ExecLo, SReg(k))]
      + Emit(next, JoinAt(code, pc) + 1)
  }

  predicate Contains(prog: Program, pc: nat, ops: seq<Opcode>) {
    pc + |ops| <= |prog| && forall i: nat :: i < |ops| ==> prog[pc + i].op == ops[i]
  }

  lemma ContainsParts(prog: Program, pc: nat, a: seq<Opcode>, b: seq<Opcode>)
    requires Contains(prog, pc, a + b)
    ensures Contains(prog, pc, a) && Contains(prog, pc + |a|, b)
  {
    forall i: nat | i < |a| ensures prog[pc + i].op == a[i] {
      assert (a + b)[i] == a[i];
    }
    forall i: nat | i < |b| ensures prog[pc + |a| + i].op == b[i] {
      assert (a + b)[|a| + i] == b[i];
    }
  }

  lemma ContainsIf(prog: Program, pc: nat, a: seq<Opcode>, b: seq<Opcode>, c: seq<Opcode>, d: seq<Opcode>,
                   e: seq<Opcode>, f: seq<Opcode>, g: seq<Opcode>, h: seq<Opcode>)
    requires Contains(prog, pc, a + b + c + d + e + f + g + h)
    ensures Contains(prog, pc, a) && Contains(prog, pc + |a|, b) && Contains(prog, pc + |a + b|, c)
    ensures Contains(prog, pc + |a + b + c|, d) && Contains(prog, pc + |a + b + c + d|, e)
    ensures Contains(prog, pc + |a + b + c + d + e|, f) && Contains(prog, pc + |a + b + c + d + e + f|, g)
    ensures Contains(prog, pc + |a + b + c + d + e + f + g|, h)
  {
    hide Contains;
    ContainsParts(prog, pc, a + b + c + d + e + f + g, h);
    ContainsParts(prog, pc, a + b + c + d + e + f, g);
    ContainsParts(prog, pc, a + b + c + d + e, f);
    ContainsParts(prog, pc, a + b + c + d, e);
    ContainsParts(prog, pc, a + b + c, d);
    ContainsParts(prog, pc, a + b, c);
    ContainsParts(prog, pc, a, b);
  }

  lemma Placed(prog: Program, pc: nat, ops: seq<Opcode>)
    requires Contains(prog, pc, ops)
    ensures |ops| > 0 ==> Holds(prog, pc, ops[0])
    ensures |ops| > 1 ==> Holds(prog, pc + 1, ops[1])
  {
    assert |ops| > 0 ==> prog[pc + 0].op == ops[0];
  }

  lemma EmittedOp(prog: Program, pc: nat, code: Code)
    requires code.Op? && Contains(prog, pc, Emit(code, pc))
    ensures Holds(prog, pc, VBin(code.op, code.dst, code.x, code.y))
    ensures Contains(prog, pc + 1, Emit(code.next, pc + 1))
  {
    hide Contains, Holds, Length;
    var head := [VBin(code.op, code.dst, code.x, code.y)];
    ContainsParts(prog, pc, head, Emit(code.next, pc + 1));
    Placed(prog, pc, head);
  }

  /** The layout the main theorem asks for is the one that is emitted. */
  lemma {:induction false} EmittedIsLaid(prog: Program, pc: nat, code: Code)
    requires Contains(prog, pc, Emit(code, pc))
    ensures Laid(prog, pc, code)
    decreases code
  {
    hide Contains, Holds, Emit, Length;
    match code
    case Done =>
    case Op(_, _, _, _, next) =>
      EmittedOp(prog, pc, code);
      EmittedIsLaid(prog, pc + 1, next);
    case If(_, _, _, _, _, thn, _, els, next) =>
      EmittedConditional(prog, pc, code);
      EmittedIsLaid(prog, ThenAt(code, pc), thn);
      EmittedIsLaid(prog, ElseAt(code, pc), els);
      EmittedIsLaid(prog, JoinAt(code, pc) + 1, next);
  }

  lemma EmittedConditional(prog: Program, pc: nat, code: Code)
    requires code.If? && Contains(prog, pc, Emit(code, pc))
    ensures Contains(prog, ThenAt(code, pc), Emit(code.thn, ThenAt(code, pc)))
    ensures Contains(prog, ElseAt(code, pc), Emit(code.els, ElseAt(code, pc)))
    ensures Contains(prog, JoinAt(code, pc) + 1, Emit(code.next, JoinAt(code, pc) + 1))
    ensures Holds(prog, pc, SMov(SReg(code.save), ExecLo))
    ensures Holds(prog, pc + 1, VCmpx(code.cond, code.x, code.y))
    ensures code.skipThen ==> Holds(prog, pc + 2, SBranch(ExecZ, FlipAt(code, pc)))
    ensures Holds(prog, FlipAt(code, pc), SBin(SXorB32, SReg(code.save), ExecLo, SReg(code.save)))
    ensures Holds(prog, FlipAt(code, pc) + 1, SSaveExec(Andn2SaveExec, SReg(code.save), SReg(code.save)))
    ensures code.skipElse ==> Holds(prog, FlipAt(code, pc) + 2, SBranch(ExecZ, JoinAt(code, pc)))
    ensures Holds(prog, JoinAt(code, pc), SBin(SOrB32, ExecLo, ExecLo, SReg(code.save)))
  {
    hide Contains, Holds, Length;
    var k := code.save;
    var head := [SMov(SReg(k), ExecLo), VCmpx(code.cond, code.x, code.y)];
    var hop := if code.skipThen then [SBranch(ExecZ, FlipAt(code, pc))] else [];
    var flip := [SBin(SXorB32, SReg(k), ExecLo, SReg(k)), SSaveExec(Andn2SaveExec, SReg(k), SReg(k))];
    var hop' := if code.skipElse then [SBranch(ExecZ, JoinAt(code, pc))] else [];
    var join := [SBin(SOrB32, ExecLo, ExecLo, SReg(k))];
    ContainsIf(prog, pc, head, hop, Emit(code.thn, ThenAt(code, pc)), flip, hop', Emit(code.els, ElseAt(code, pc)),
               join, Emit(code.next, JoinAt(code, pc) + 1));
    Placed(prog, pc, head);
    Placed(prog, pc + 2, hop);
    Placed(prog, FlipAt(code, pc), flip);
    Placed(prog, FlipAt(code, pc) + 2, hop');
    Placed(prog, JoinAt(code, pc), join);
  }

  function Saves(code: Code): set<nat> {
    match code
    case Done => {}
    case Op(_, _, _, _, next) => Saves(next)
    case If(k, _, _, _, _, thn, _, els, next) => {k as nat} + Saves(thn) + Saves(els) + Saves(next)
  }

  // Scalar operands are defined and are never used to keep EXEC.
  predicate Readable(x: VOperand, saved: set<nat>, undef: set<nat>) {
    x.VScalar? ==> x.i !in saved && x.i !in undef
  }

  /** The idiom's own discipline: an arm does not reuse the register its
      conditional keeps EXEC in, and operands are readable. */
  predicate Disciplined(code: Code, saved: set<nat>, undef: set<nat>) {
    match code
    case Done => true
    case Op(_, _, x, y, next) =>
      Readable(x, saved, undef) && Readable(y, saved, undef) && Disciplined(next, saved, undef)
    case If(k, _, x, y, _, thn, _, els, next) =>
      && Readable(x, saved, undef) && Readable(y, saved, undef)
      && k in saved && k !in Saves(thn) && k !in Saves(els)
      && Disciplined(thn, saved, undef) && Disciplined(els, saved, undef) && Disciplined(next, saved, undef)
  }

  // ---------------- one lane alone ----------------

  // What a lane that runs alone sees: the scalar registers and VCC.
  datatype Uniform = Uniform(s: SFile, vcc: Word)

  function Alone(u: Uniform, x: VOperand, regs: VRegs, lane: nat): Word
    requires lane < LANES
  {
    match x
    case VReg(n) => regs[n]
    case VNegReg(n) => 0 - regs[n]
    case VccLane => if Bit(u.vcc, lane) then 1 else 0
    case ExecLane => 1
    case VScalar(i) => u.s[i]
    case VLit(w) => w
  }

  /** Ordinary scalar semantics: the lane takes the arm its own predicate chooses. */
  function RunAlone(code: Code, u: Uniform, regs: VRegs, lane: nat): VRegs
    requires lane < LANES
    decreases code
  {
    match code
    case Done => regs
    case Op(op, dst, x, y, next) =>
      RunAlone(next, u, regs[dst := EvalV(op, Alone(u, x, regs, lane), Alone(u, y, regs, lane))], lane)
    case If(_, cond, x, y, _, thn, _, els, next) =>
      if HoldsV(cond, Alone(u, x, regs, lane), Alone(u, y, regs, lane)) then
        RunAlone(next, u, RunAlone(thn, u, regs, lane), lane)
      else
        RunAlone(next, u, RunAlone(els, u, regs, lane), lane)
  }

  // ---------------- runs of the machine ----------------

  /** The state after n steps, or the first step that did not come back Fine. */
  function Run(prog: Program, cfg: Config, c: Core, sh: Shared, n: nat): Stepped
    decreases n
  {
    if n == 0 then Stepped(c, sh, Fine)
    else
      var r := Step(prog, cfg, c, sh);
      if r.signal.Fine? then Run(prog, cfg, r.core, r.shared, n - 1) else r
  }

  lemma {:induction false} RunJoins(prog: Program, cfg: Config, c: Core, sh: Shared, m: nat, n: nat)
    requires Run(prog, cfg, c, sh, m).signal.Fine?
    ensures var r := Run(prog, cfg, c, sh, m);
            Run(prog, cfg, c, sh, m + n) == Run(prog, cfg, r.core, r.shared, n)
    decreases m
  {
    hide Step;
    if m > 0 {
      var r := Step(prog, cfg, c, sh);
      RunJoins(prog, cfg, r.core, r.shared, m - 1, n);
    }
  }

  // The uniform part of the state is what it was, except for the save registers.
  predicate Kept(c: Core, c': Core, saves: set<nat>) {
    && c'.exec == c.exec && c'.vcc == c.vcc && c'.scc == c.scc
    && c'.terminated == c.terminated && c'.cycles == c.cycles
    && c'.undef <= c.undef
    && forall i: SIdx :: i !in saves ==> c'.s[i] == c.s[i]
  }

  predicate AgreesOn(c: Core, u: Uniform, saved: set<nat>) {
    c.vcc == u.vcc && forall i: SIdx :: i !in saved ==> c.s[i] == u.s[i]
  }

  // Every active lane has run `code` alone and no other lane has changed.
  predicate LanesRan(code: Code, u: Uniform, exec: Word, v: VFile, v': VFile) {
    forall l: nat :: l < LANES ==> v'[l] == if Bit(exec, l) then RunAlone(code, u, v[l], l) else v[l]
  }

  // ---------------- one step at a time ----------------

  function Fetched(c: Core): Core {
    c.(pc := c.pc + 1, steps := c.steps + 1)
  }

  lemma StepIs(prog: Program, cfg: Config, c: Core, sh: Shared, op: Opcode)
    requires Holds(prog, c.pc, op) && c.cycles.NoKeys?
    ensures Step(prog, cfg, c, sh) == Dispatch(cfg, Fetched(c), sh, op)
  {
    hide Dispatch;
  }

  lemma RunOne(prog: Program, cfg: Config, c: Core, sh: Shared)
    requires Step(prog, cfg, c, sh).signal.Fine?
    ensures Run(prog, cfg, c, sh, 1) == Step(prog, cfg, c, sh)
  {
    hide Step;
    var r := Step(prog, cfg, c, sh);
    assert Run(prog, cfg, r.core, r.shared, 0) == r;
  }

  // On an active lane an operand has the value the lane alone would read.
  lemma OperandAlone(c: Core, u: Uniform, saved: set<nat>, x: VOperand, l: nat)
    requires l < LANES && Bit(c.exec, l)
    requires AgreesOn(c, u, saved) && Readable(x, saved, c.undef)
    ensures Resolve(c, x).Got?
    ensures LaneValue(Resolve(c, x).value, c.v[l], l) == Alone(u, x, c.v[l], l)
  {
    hide Bit;
  }

  lemma ActiveMeansExec(exec: Word, l: nat)
    requires l < LANES && Bit(exec, l)
    ensures exec != 0
  {
    NoBits(l);
  }

  lemma OperandsResolve(c: Core, u: Uniform, saved: set<nat>, x: VOperand, y: VOperand)
    requires AgreesOn(c, u, saved) && Readable(x, saved, c.undef) && Readable(y, saved, c.undef)
    ensures !Operands(c, x, y).Stuck?
    ensures forall l: nat :: l < LANES && Bit(c.exec, l) ==>
      var src := Operands(c, x, y);
      && src.Both?
      && LaneValue(src.x, c.v[l], l) == Alone(u, x, c.v[l], l)
      && LaneValue(src.y, c.v[l], l) == Alone(u, y, c.v[l], l)
  {
    hide Bit;
    forall l: nat | l < LANES && Bit(c.exec, l)
      ensures var src := Operands(c, x, y);
        && src.Both?
        && LaneValue(src.x, c.v[l], l) == Alone(u, x, c.v[l], l)
        && LaneValue(src.y, c.v[l], l) == Alone(u, y, c.v[l], l)
    {
      ActiveMeansExec(c.exec, l);
      OperandAlone(c, u, saved, x, l);
      OperandAlone(c, u, saved, y, l);
    }
  }

  lemma {:induction false} VectorStep(prog: Program, cfg: Config, c: Core, sh: Shared, u: Uniform, saved: set<nat>,
                   op: VBinary, dst: VIdx, x: VOperand, y: VOperand)
    requires Holds(prog, c.pc, VBin(op, dst, x, y)) && c.cycles.NoKeys?
    requires AgreesOn(c, u, saved) && Readable(x, saved, c.undef) && Readable(y, saved, c.undef)
    ensures var r := Step(prog, cfg, c, sh);
      && r.signal.Fine? && r.shared == sh
      && r.core == Fetched(c).(v := r.core.v)
      && LanesRan(Op(op, dst, x, y, Done), u, c.exec, c.v, r.core.v)
  {
    hide Bit, EvalV, Step, Operands, VBinAll, LanesRan;
    StepIs(prog, cfg, c, sh, VBin(op, dst, x, y));
    VectorLanes(Fetched(c), u, saved, op, dst, x, y);
  }

  lemma VectorLanes(c: Core, u: Uniform, saved: set<nat>, op: VBinary, dst: VIdx, x: VOperand, y: VOperand)
    requires AgreesOn(c, u, saved) && Readable(x, saved, c.undef) && Readable(y, saved, c.undef)
    ensures var src := Operands(c, x, y);
      && !src.Stuck?
      && LanesRan(Op(op, dst, x, y, Done), u, c.exec, c.v,
                  if src.Both? then VBinAll(op, dst, src.x, src.y, c.exec, c.v) else c.v)
  {
    hide Bit, EvalV, Operands, LaneValue, Alone;
    OperandsResolve(c, u, saved, x, y);
    var src := Operands(c, x, y);
    var one := Op(op, dst, x, y, Done);
    var v' := if src.Both? then VBinAll(op, dst, src.x, src.y, c.exec, c.v) else c.v;
    forall l: nat | l < LANES
      ensures v'[l] == if Bit(c.exec, l) then RunAlone(one, u, c.v[l], l) else c.v[l]
    {
      if Bit(c.exec, l) {
        assert RunAlone(one, u, c.v[l], l)
            == c.v[l][dst := EvalV(op, Alone(u, x, c.v[l], l), Alone(u, y, c.v[l], l))];
      }
    }
  }

  // v_cmpx narrows EXEC to the active lanes whose own predicate holds.
  lemma {:induction false} NarrowStep(prog: Program, cfg: Config, c: Core, sh: Shared, u: Uniform, saved: set<nat>,
                   cond: VCompare, x: VOperand, y: VOperand)
    requires Holds(prog, c.pc, VCmpx(cond, x, y)) && c.cycles.NoKeys?
    requires AgreesOn(c, u, saved) && Readable(x, saved, c.undef) && Readable(y, saved, c.undef)
    ensures var r := Step(prog, cfg, c, sh);
      && r.signal.Fine? && r.shared == sh
      && r.core == Fetched(c).(exec := r.core.exec)
      && Within(r.core.exec, c.exec)
      && forall l: nat :: l < LANES ==>
           Bit(r.core.exec, l) == (Bit(c.exec, l) && HoldsV(cond, Alone(u, x, c.v[l], l), Alone(u, y, c.v[l], l)))
  {
    hide Bit, HoldsV, Within;
    StepIs(prog, cfg, c, sh, VCmpx(cond, x, y));
    var f := Fetched(c);
    OperandsResolve(f, u, saved, x, y);
    var src := Operands(f, x, y);
    if src.Both? {
      var p := CompareAll(cond, src.x, src.y, c.v);
      MaskWithin(c.exec, p, LANES);
      forall l: nat | l < LANES
        ensures Bit(MaskUpTo(c.exec, p, LANES), l)
             == (Bit(c.exec, l) && HoldsV(cond, Alone(u, x, c.v[l], l), Alone(u, y, c.v[l], l)))
      {
        MaskBits(c.exec, p, LANES, l);
      }
    } else {
      ZeroWithin(c.exec);
      forall l: nat | l < LANES ensures !Bit(0, l) { NoBits(l); }
    }
  }

  // The EXEC of the second arm, from EXEC before the conditional and inside the first arm.
  function OtherArm(e0: Word, e1: Word): Word {
    NewExec(Andn2SaveExec, e1, EvalS(SXorB32, e1, e0))
  }

  lemma OtherArmAt(e0: Word, e1: Word, k: Word)
    requires k < 32 && Within(e1, e0)
    ensures BitAt(OtherArm(e0, e1), k) == (BitAt(e0, k) && !BitAt(e1, k))
  {
  }

  lemma {:induction false} OtherArmBits(e0: Word, e1: Word, l: nat)
    requires l < LANES && Within(e1, e0)
    ensures Bit(OtherArm(e0, e1), l) == (Bit(e0, l) && !Bit(e1, l))
  {
    hide Idx, BitAt, OtherArm, Within;
    OtherArmAt(e0, e1, Idx(l));
  }

  lemma {:induction false} JoinRestores(e0: Word, e1: Word)
    requires Within(e1, e0)
    ensures EvalS(SOrB32, OtherArm(e0, e1), e1) == e0
  {
  }

  // n steps lead from c to c', every one Fine and none touching shared memory.
  predicate Goes(prog: Program, cfg: Config, sh: Shared, c: Core, n: nat, c': Core) {
    Run(prog, cfg, c, sh, n) == Stepped(c', sh, Fine)
  }

  lemma GoesOn(prog: Program, cfg: Config, sh: Shared, c: Core, m: nat, c1: Core, n: nat, c2: Core)
    requires Goes(prog, cfg, sh, c, m, c1) && Goes(prog, cfg, sh, c1, n, c2)
    ensures Goes(prog, cfg, sh, c, m + n, c2)
  {
    hide Run;
    RunJoins(prog, cfg, c, sh, m, n);
  }

  // An optional s_cbranch_execz.
  lemma Skip(prog: Program, cfg: Config, sh: Shared, c: Core, present: bool, target: nat) returns (n: nat, c': Core)
    requires c.cycles.NoKeys? && (present ==> Holds(prog, c.pc, SBranch(ExecZ, target)))
    ensures Goes(prog, cfg, sh, c, n, c')
    ensures c' == c.(pc := c'.pc, steps := c'.steps)
    ensures c'.pc == if present && c.exec == 0 then target else c.pc + Flag(present)
  {
    if present {
      StepIs(prog, cfg, c, sh, SBranch(ExecZ, target));
      RunOne(prog, cfg, c, sh);
      n, c' := 1, Step(prog, cfg, c, sh).core;
    } else {
      n, c' := 0, c;
    }
  }

  // e1 is exactly the active lanes whose own predicate holds.
  predicate Chosen(code: Code, u: Uniform, exec: Word, v: VFile, e1: Word)
    requires code.If?
  {
    forall l: nat :: l < LANES ==>
      Bit(e1, l) == (Bit(exec, l) && HoldsV(code.cond, Alone(u, code.x, v[l], l), Alone(u, code.y, v[l], l)))
  }

  // The fixed instructions of a conditional, where they are laid.
  predicate HeadLaid(prog: Program, pc: nat, code: Code)
    requires code.If?
  {
    && Holds(prog, pc, SMov(SReg(code.save), ExecLo))
    && Holds(prog, pc + 1, VCmpx(code.cond, code.x, code.y))
    && (code.skipThen ==> Holds(prog, pc + 2, SBranch(ExecZ, FlipAt(code, pc))))
  }

  predicate FlipLaid(prog: Program, pc: nat, code: Code)
    requires code.If?
  {
    && Holds(prog, FlipAt(code, pc), SBin(SXorB32, SReg(code.save), ExecLo, SReg(code.save)))
    && Holds(prog, FlipAt(code, pc) + 1, SSaveExec(Andn2SaveExec, SReg(code.save), SReg(code.save)))
    && (code.skipElse ==> Holds(prog, FlipAt(code, pc) + 2, SBranch(ExecZ, JoinAt(code, pc))))
  }

  // What the head and the flip of a conditional leave behind.
  predicate Narrowed(c: Core, c1: Core, k: SIdx) {
    c1 == c.(pc := c1.pc, steps := c1.steps, exec := c1.exec, s := c.s[k := c.exec], undef := c.undef - {k})
  }

  predicate Flipped(c: Core, c1: Core, k: SIdx, all: Word) {
    c1 == c.(pc := c1.pc, steps := c1.steps, exec := OtherArm(all, c.exec), s := c.s[k := c.exec])
  }

  lemma MovStep(prog: Program, cfg: Config, sh: Shared, c: Core, k: SIdx) returns (c': Core)
    requires Holds(prog, c.pc, SMov(SReg(k), ExecLo)) && c.cycles.NoKeys?
    ensures Goes(prog, cfg, sh, c, 1, c')
    ensures c' == Fetched(c).(s := c.s[k := c.exec], undef := c.undef - {k})
  {
    StepIs(prog, cfg, c, sh, SMov(SReg(k), ExecLo));
    RunOne(prog, cfg, c, sh);
    c' := Step(prog, cfg, c, sh).core;
  }

  lemma CmpxStep(prog: Program, cfg: Config, sh: Shared, c: Core, u: Uniform, saved: set<nat>, code: Code) returns (c': Core)
    requires code.If? && Holds(prog, c.pc, VCmpx(code.cond, code.x, code.y)) && c.cycles.NoKeys?
    requires AgreesOn(c, u, saved) && Readable(code.x, saved, c.undef) && Readable(code.y, saved, c.undef)
    ensures Goes(prog, cfg, sh, c, 1, c')
    ensures c' == Fetched(c).(exec := c'.exec)
    ensures Within(c'.exec, c.exec) && Chosen(code, u, c.exec, c.v, c'.exec)
  {
    hide Step, Run, Bit, HoldsV, Within, Alone;
    NarrowStep(prog, cfg, c, sh, u, saved, code.cond, code.x, code.y);
    RunOne(prog, cfg, c, sh);
    c' := Step(prog, cfg, c, sh).core;
  }

  // s_mov save, exec; v_cmpx; and the skip over the first arm.
  lemma Narrow(prog: Program, cfg: Config, sh: Shared, c: Core, u: Uniform, saved: set<nat>, undef: set<nat>, code: Code)
    returns (n: nat, c': Core)
    requires code.If? && HeadLaid(prog, c.pc, code) && c.cycles.NoKeys? && AgreesOn(c, u, saved)
    requires Readable(code.x, saved, undef) && Readable(code.y, saved, undef) && c.undef <= undef && code.save in saved
    ensures Goes(prog, cfg, sh, c, n, c')
    ensures Narrowed(c, c', code.save)
    ensures c'.pc == if code.skipThen && c'.exec == 0 then FlipAt(code, c.pc) else ThenAt(code, c.pc)
    ensures Within(c'.exec, c.exec) && Chosen(code, u, c.exec, c.v, c'.exec)
  {
    hide Goes, Within, Chosen, Holds;
    var c1 := MovStep(prog, cfg, sh, c, code.save);
    var c2 := CmpxStep(prog, cfg, sh, c1, u, saved, code);
    GoesOn(prog, cfg, sh, c, 1, c1, 1, c2);
    var m, c3 := Skip(prog, cfg, sh, c2, code.skipThen, FlipAt(code, c.pc));
    GoesOn(prog, cfg, sh, c, 2, c2, m, c3);
    n, c' := 2 + m, c3;
  }

  lemma XorStep(prog: Program, cfg: Config, sh: Shared, c: Core, k: SIdx) returns (c': Core)
    requires Holds(prog, c.pc, SBin(SXorB32, SReg(k), ExecLo, SReg(k))) && c.cycles.NoKeys? && k !in c.undef
    ensures Goes(prog, cfg, sh, c, 1, c')
    ensures c' == Fetched(c).(s := c.s[k := EvalS(SXorB32, c.exec, c.s[k])], undef := c.undef - {k})
  {
    hide EvalS;
    StepIs(prog, cfg, c, sh, SBin(SXorB32, SReg(k), ExecLo, SReg(k)));
    RunOne(prog, cfg, c, sh);
    c' := Step(prog, cfg, c, sh).core;
  }

  lemma SaveStep(prog: Program, cfg: Config, sh: Shared, c: Core, k: SIdx) returns (c': Core)
    requires Holds(prog, c.pc, SSaveExec(Andn2SaveExec, SReg(k), SReg(k))) && c.cycles.NoKeys? && k !in c.undef
    ensures Goes(prog, cfg, sh, c, 1, c')
    ensures c' == Fetched(c).(s := c.s[k := c.exec], undef := c.undef - {k},
                              exec := NewExec(Andn2SaveExec, c.exec, c.s[k]))
  {
    hide NewExec;
    StepIs(prog, cfg, c, sh, SSaveExec(Andn2SaveExec, SReg(k), SReg(k)));
    RunOne(prog, cfg, c, sh);
    c' := Step(prog, cfg, c, sh).core;
  }

  // s_or exec, exec, save.
  lemma OrStep(prog: Program, cfg: Config, sh: Shared, c: Core, k: SIdx) returns (c': Core)
    requires Holds(prog, c.pc, SBin(SOrB32, ExecLo, ExecLo, SReg(k))) && c.cycles.NoKeys? && k !in c.undef
    ensures Goes(prog, cfg, sh, c, 1, c')
    ensures c' == Fetched(c).(exec := EvalS(SOrB32, c.exec, c.s[k]))
  {
    hide EvalS;
    StepIs(prog, cfg, c, sh, SBin(SOrB32, ExecLo, ExecLo, SReg(k)));
    RunOne(prog, cfg, c, sh);
    c' := Step(prog, cfg, c, sh).core;
  }

  // s_xor, s_andn2_saveexec, and the skip over the second arm.  all is EXEC
  // before the conditional.
  lemma Flip(prog: Program, cfg: Config, sh: Shared, c: Core, code: Code, pc: nat, all: Word)
    returns (n: nat, c': Core)
    requires code.If? && FlipLaid(prog, pc, code) && c.cycles.NoKeys?
    requires c.pc == FlipAt(code, pc) && code.save !in c.undef && c.s[code.save] == all
    ensures Goes(prog, cfg, sh, c, n, c')
    ensures Flipped(c, c', code.save, all)
    ensures c'.pc == if code.skipElse && c'.exec == 0 then JoinAt(code, pc) else ElseAt(code, pc)
  {
    hide EvalS, NewExec, Goes, Holds;
    var k := code.save;
    var c1 := XorStep(prog, cfg, sh, c, k);
    var c2 := SaveStep(prog, cfg, sh, c1, k);
    GoesOn(prog, cfg, sh, c, 1, c1, 1, c2);
    assert c2.s == c.s[k := c.exec];
    var m, c3 := Skip(prog, cfg, sh, c2, code.skipElse, JoinAt(code, pc));
    GoesOn(prog, cfg, sh, c, 2, c2, m, c3);
    n, c' := 2 + m, c3;
  }

  // With no active lane nothing runs and nothing has to.
  lemma NobodyRan(code: Code, u: Uniform, v: VFile)
    ensures LanesRan(code, u, 0, v, v)
  {
    hide Bit, RunAlone;
    forall l: nat | l < LANES ensures !Bit(0, l) { NoBits(l); }
  }

  lemma OneVector(prog: Program, cfg: Config, sh: Shared, c: Core, u: Uniform, saved: set<nat>, undef: set<nat>, code: Code)
    returns (c': Core)
    requires code.Op? && c.cycles.NoKeys? && Holds(prog, c.pc, VBin(code.op, code.dst, code.x, code.y))
    requires AgreesOn(c, u, saved) && c.undef <= undef && Readable(code.x, saved, undef) && Readable(code.y, saved, undef)
    ensures Goes(prog, cfg, sh, c, 1, c')
    ensures c' == Fetched(c).(v := c'.v)
    ensures LanesRan(Op(code.op, code.dst, code.x, code.y, Done), u, c.exec, c.v, c'.v)
  {
    hide Bit, EvalV, Run, Step, LanesRan, Holds;
    VectorStep(prog, cfg, c, sh, u, saved, code.op, code.dst, code.x, code.y);
    RunOne(prog, cfg, c, sh);
    c' := Step(prog, cfg, c, sh).core;
  }

  lemma OpThen(code: Code, u: Uniform, exec: Word, v: VFile, v1: VFile, v2: VFile)
    requires code.Op? && LanesRan(Op(code.op, code.dst, code.x, code.y, Done), u, exec, v, v1)
    requires LanesRan(code.next, u, exec, v1, v2)
    ensures LanesRan(code, u, exec, v, v2)
  {
    hide Bit, RunAlone;
    forall l: nat | l < LANES
      ensures v2[l] == if Bit(exec, l) then RunAlone(code, u, v[l], l) else v[l]
    {
      AloneOp(code, u, v[l], l);
    }
  }

  lemma AloneOp(code: Code, u: Uniform, regs: VRegs, l: nat)
    requires code.Op? && l < LANES
    ensures RunAlone(code, u, regs, l)
         == RunAlone(code.next, u, RunAlone(Op(code.op, code.dst, code.x, code.y, Done), u, regs, l), l)
  {
    hide EvalV, Alone;
  }

  // How the lanes of a conditional end, from how its two arms and its tail ended.
  lemma ArmsMeet(code: Code, u: Uniform, exec: Word, e1: Word, v: VFile, v1: VFile, v2: VFile, v3: VFile)
    requires code.If? && Within(e1, exec) && Chosen(code, u, exec, v, e1)
    requires LanesRan(code.thn, u, e1, v, v1)
    requires LanesRan(code.els, u, OtherArm(exec, e1), v1, v2)
    requires LanesRan(code.next, u, exec, v2, v3)
    ensures LanesRan(code, u, exec, v, v3)
  {
    hide Bit, HoldsV, Within, OtherArm;
    forall l: nat | l < LANES
      ensures v3[l] == if Bit(exec, l) then RunAlone(code, u, v[l], l) else v[l]
    {
      OtherArmBits(exec, e1, l);
    }
  }

  // ---------------- the induction ----------------

  // `code` is laid out at pc and c is fit to run it.
  predicate Ready(prog: Program, c: Core, pc: nat, u: Uniform, saved: set<nat>, undef: set<nat>, code: Code) {
    && c.cycles.NoKeys? && Laid(prog, pc, code)
    && AgreesOn(c, u, saved) && Disciplined(code, saved, undef) && c.undef <= undef && Saves(code) <= saved
  }

  lemma ThenReady(prog: Program, c: Core, pc: nat, u: Uniform, saved: set<nat>, undef: set<nat>, code: Code, c1: Core)
    requires code.If? && Ready(prog, c, pc, u, saved, undef, code) && Narrowed(c, c1, code.save)
    ensures Ready(prog, c1, ThenAt(code, pc), u, saved, undef, code.thn)
  {
    hide Holds, Length, Readable;
  }

  lemma AfterThen(c: Core, c1: Core, c2: Core, code: Code, saved: set<nat>, undef: set<nat>)
    requires code.If? && Disciplined(code, saved, undef) && Narrowed(c, c1, code.save) && Kept(c1, c2, Saves(code.thn))
    ensures code.save !in c2.undef && c2.s[code.save] == c.exec && c2.exec == c1.exec
    ensures c2.cycles == c.cycles
  {
    hide Readable;
  }

  lemma ElseReady(prog: Program, c: Core, pc: nat, u: Uniform, saved: set<nat>, undef: set<nat>, code: Code,
                  c1: Core, c2: Core, c3: Core)
    requires code.If? && Ready(prog, c, pc, u, saved, undef, code)
    requires Narrowed(c, c1, code.save) && Kept(c1, c2, Saves(code.thn)) && Flipped(c2, c3, code.save, c.exec)
    ensures Ready(prog, c3, ElseAt(code, pc), u, saved, undef, code.els)
  {
    hide Holds, Length, Readable, OtherArm;
  }

  lemma AfterElse(c: Core, code: Code, saved: set<nat>, undef: set<nat>, c1: Core, c2: Core, c3: Core, c4: Core, c5: Core)
    requires code.If? && Disciplined(code, saved, undef)
    requires Narrowed(c, c1, code.save) && Kept(c1, c2, Saves(code.thn))
    requires Flipped(c2, c3, code.save, c.exec) && Kept(c3, c4, Saves(code.els))
    requires c5 == Fetched(c4).(exec := c.exec)
    ensures Kept(c, c5, {code.save as nat} + Saves(code.thn) + Saves(code.els))
  {
    hide Readable, OtherArm;
  }

  lemma SaveStillThere(c2: Core, c3: Core, c4: Core, code: Code, saved: set<nat>, undef: set<nat>, all: Word)
    requires code.If? && Disciplined(code, saved, undef) && code.save !in c2.undef
    requires Flipped(c2, c3, code.save, all) && Kept(c3, c4, Saves(code.els))
    ensures code.save !in c4.undef && c4.s[code.save] == c2.exec && c4.exec == OtherArm(all, c2.exec)
    ensures c4.cycles == c2.cycles
  {
    hide Readable, OtherArm;
  }

  lemma TailReady(prog: Program, c: Core, pc: nat, u: Uniform, saved: set<nat>, undef: set<nat>, code: Code, c5: Core)
    requires code.If? && Ready(prog, c, pc, u, saved, undef, code)
    requires Kept(c, c5, {code.save as nat} + Saves(code.thn) + Saves(code.els))
    ensures Ready(prog, c5, JoinAt(code, pc) + 1, u, saved, undef, code.next)
  {
    hide Holds, Length, Readable;
  }

  lemma KeptJoins(c: Core, c1: Core, c2: Core, a: set<nat>, b: set<nat>)
    requires Kept(c, c1, a) && Kept(c1, c2, b)
    ensures Kept(c, c2, a + b)
  {
  }

  lemma PartsLaid(prog: Program, pc: nat, code: Code)
    requires code.If? && Laid(prog, pc, code)
    ensures HeadLaid(prog, pc, code) && FlipLaid(prog, pc, code)
    ensures Holds(prog, JoinAt(code, pc), SBin(SOrB32, ExecLo, ExecLo, SReg(code.save)))
  {
    hide Length, Holds;
  }

  // The conditional itself, up to its join: e1 is EXEC in the first arm, v1
  // the registers after it.
  lemma {:induction false} BothArms(
    prog: Program, cfg: Config, sh: Shared, c: Core, u: Uniform, saved: set<nat>, undef: set<nat>, code: Code)
    returns (n: nat, c': Core, e1: Word, v1: VFile)
    requires code.If? && Ready(prog, c, c.pc, u, saved, undef, code)
    ensures Goes(prog, cfg, sh, c, n, c')
    ensures c'.pc == JoinAt(code, c.pc) + 1
    ensures Kept(c, c', {code.save as nat} + Saves(code.thn) + Saves(code.els))
    ensures Within(e1, c.exec)
    ensures Chosen(code, u, c.exec, c.v, e1)
    ensures LanesRan(code.thn, u, e1, c.v, v1)
    ensures LanesRan(code.els, u, OtherArm(c.exec, e1), v1, c'.v)
    decreases code, 0
  {
    hide EvalS, OtherArm, Goes, LanesRan, Within, Kept, AgreesOn, Chosen, HeadLaid, FlipLaid, Length, Saves, Laid, Holds, Readable;
    PartsLaid(prog, c.pc, code);
    var n1, c1 := Narrow(prog, cfg, sh, c, u, saved, undef, code);
    ThenReady(prog, c, c.pc, u, saved, undef, code, c1);
    hide Disciplined;
    var n2, c2 := Arm(prog, cfg, sh, c1, ThenAt(code, c.pc), u, saved, undef, code.thn);
    AfterThen(c, c1, c2, code, saved, undef);
    var n3, c3 := Flip(prog, cfg, sh, c2, code, c.pc, c.exec);
    ElseReady(prog, c, c.pc, u, saved, undef, code, c1, c2, c3);
    hide Ready;
    var n4, c4 := Arm(prog, cfg, sh, c3, ElseAt(code, c.pc), u, saved, undef, code.els);
    SaveStillThere(c2, c3, c4, code, saved, undef, c.exec);
    JoinRestores(c.exec, c1.exec);
    c' := OrStep(prog, cfg, sh, c4, code.save);
    AfterElse(c, code, saved, undef, c1, c2, c3, c4, c');
    GoesOn(prog, cfg, sh, c, n1, c1, n2, c2);
    GoesOn(prog, cfg, sh, c, n1 + n2, c2, n3, c3);
    GoesOn(prog, cfg, sh, c, n1 + n2 + n3, c3, n4, c4);
    GoesOn(prog, cfg, sh, c, n1 + n2 + n3 + n4, c4, 1, c');
    n, e1, v1 := n1 + n2 + n3 + n4 + 1, c1.exec, c2.v;
  }

  // One arm laid out at `at`: run, or already skipped because no lane wants it.
  lemma {:induction false} Arm(
    prog: Program, cfg: Config, sh: Shared, c: Core, at: nat, u: Uniform, saved: set<nat>, undef: set<nat>, code: Code)
    returns (n: nat, c': Core)
    requires Ready(prog, c, at, u, saved, undef, code)
    requires c.pc == at || (c.exec == 0 && c.pc == at + Length(code))
    ensures Goes(prog, cfg, sh, c, n, c')
    ensures c'.pc == at + Length(code)
    ensures Kept(c, c', Saves(code))
    ensures LanesRan(code, u, c.exec, c.v, c'.v)
    decreases code, 4
  {
    hide Bit, RunAlone, Run, Goes, LanesRan, Ready;
    if c.pc == at {
      n, c' := Induct(prog, cfg, sh, c, u, saved, undef, code);
    } else {
      n, c' := 0, c;
      RunNone(prog, cfg, c, sh);
      NobodyRan(code, u, c.v);
    }
  }

  lemma {:induction false} Induct(
    prog: Program, cfg: Config, sh: Shared, c: Core, u: Uniform, saved: set<nat>, undef: set<nat>, code: Code)
    returns (n: nat, c': Core)
    requires Ready(prog, c, c.pc, u, saved, undef, code)
    ensures Goes(prog, cfg, sh, c, n, c')
    ensures c'.pc == c.pc + Length(code)
    ensures Kept(c, c', Saves(code))
    ensures LanesRan(code, u, c.exec, c.v, c'.v)
    decreases code, 3
  {
    hide Goes, LanesRan, RunAlone;
    match code
    case Done =>
      n, c' := 0, c;
      RunNone(prog, cfg, c, sh);
      NothingRan(u, c.exec, c.v);
    case Op(_, _, _, _, next) =>
      hide Readable, Holds;
      var c1 := OneVector(prog, cfg, sh, c, u, saved, undef, code);
      var m, c2 := Induct(prog, cfg, sh, c1, u, saved, undef, next);
      GoesOn(prog, cfg, sh, c, 1, c1, m, c2);
      n, c' := 1 + m, c2;
      OpThen(code, u, c.exec, c.v, c1.v, c2.v);
    case If(_, _, _, _, _, _, _, _, _) =>
      n, c' := Conditional(prog, cfg, sh, c, u, saved, undef, code);
  }

  lemma {:induction false} Conditional(
    prog: Program, cfg: Config, sh: Shared, c: Core, u: Uniform, saved: set<nat>, undef: set<nat>, code: Code)
    returns (n: nat, c': Core)
    requires code.If? && Ready(prog, c, c.pc, u, saved, undef, code)
    ensures Goes(prog, cfg, sh, c, n, c')
    ensures c'.pc == c.pc + Length(code)
    ensures Kept(c, c', Saves(code))
    ensures LanesRan(code, u, c.exec, c.v, c'.v)
    decreases code, 2
  {
    hide OtherArm, Goes, Ready, LanesRan, Within, Kept, Chosen;
    var n1, c1, e1, v1 := BothArms(prog, cfg, sh, c, u, saved, undef, code);
    TailReady(prog, c, c.pc, u, saved, undef, code, c1);
    var n2, c2 := Induct(prog, cfg, sh, c1, u, saved, undef, code.next);
    GoesOn(prog, cfg, sh, c, n1, c1, n2, c2);
    n, c' := n1 + n2, c2;
    SameExec(c, c1, {code.save as nat} + Saves(code.thn) + Saves(code.els));
    ArmsMeet(code, u, c.exec, e1, c.v, v1, c1.v, c2.v);
    KeptJoins(c, c1, c2, {code.save as nat} + Saves(code.thn) + Saves(code.els), Saves(code.next));
  }

  lemma SameExec(c: Core, c': Core, saves: set<nat>)
    requires Kept(c, c', saves)
    ensures c'.exec == c.exec
  {
  }

  lemma NothingRan(u: Uniform, exec: Word, v: VFile)
    ensures LanesRan(Done, u, exec, v, v)
  {
    hide Bit;
  }

  lemma RunNone(prog: Program, cfg: Config, c: Core, sh: Shared)
    ensures Goes(prog, cfg, sh, c, 0, c)
  {
  }

  /** The main theorem.  From any state, running the compiled code takes some
      number of steps, none of them faulting, and ends just past it with EXEC,
      VCC, SCC and shared memory exactly as before, every scalar register
      except the save registers unchanged, every active lane's registers as if
      that lane alone had taken the arms its own predicates chose, and every
      inactive lane's registers untouched. */
  lemma {:induction false} MaskedIsPerLane(
    prog: Program, cfg: Config, sh: Shared, c: Core, saved: set<nat>, code: Code)
    returns (n: nat, c': Core)
    requires c.cycles.NoKeys?
    requires Contains(prog, c.pc, Emit(code, c.pc))
    requires Disciplined(code, saved, c.undef) && Saves(code) <= saved
    ensures Run(prog, cfg, c, sh, n) == Stepped(c', sh, Fine)
    ensures c'.pc == c.pc + Length(code)
    ensures c'.exec == c.exec && c'.vcc == c.vcc && c'.scc == c.scc
    ensures forall i: SIdx :: i !in Saves(code) ==> c'.s[i] == c.s[i]
    ensures forall l: nat :: l < LANES ==>
      c'.v[l] == if Bit(c.exec, l) then RunAlone(code, Uniform(c.s, c.vcc), c.v[l], l) else c.v[l]
  {
    hide Run, Bit, RunAlone, Emit, Contains, Length, Disciplined;
    var u := Uniform(c.s, c.vcc);
    EmittedIsLaid(prog, c.pc, code);
    n, c' := Induct(prog, cfg, sh, c, u, saved, c.undef, code);
  }
}
