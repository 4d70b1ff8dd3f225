/** Why the LDS image matters: a wave that counts in LDS is stopped as a cycle
    although, left alone, it ends. */
module CycleSpurious {
  import opened Words
  import opened Isa
  import opened CoreSpec
  import opened Simt
  import opened CycleDetect
  import LdsModel

  // Load the counter at LDS address v0, add one, store it back, compare with
  // 3, clear the register, idle, and go round again while they differ.
  function OpAt(i: nat): Opcode {
    if i == 0 then Ds(DsLoad(One(1), 0, 0, 4, false))
    else if i == 1 then VBin(VAddU32, 1, VReg(1), VLit(1))
    else if i == 2 then Ds(DsStore(0, One(1), 0, 4, false))
    else if i == 3 then VCmp(VNeU32, VccLo, VReg(1), VLit(3))
    else if i == 4 then VBin(VMovB32, 1, VLit(0), VLit(0))
    else if i < 255 then Nop
    else if i == 255 then SBranch(VccNz, 0)
    else EndPgm
  }

  function CounterProgram(): Program {
    seq(257, i requires 0 <= i < 257 => Instr(OpAt(i), None))
  }

  const CFG := Config(U32, 0x4000)

  // The counter kept in the first four LDS bytes.
  function Counter(lds: Lds): Word {
    Dword(LdsBytes(CFG, lds, 0, 4), 0)
  }

  lemma {:induction false} MaskOfLaneZero(p: seq<bool>, n: nat)
    requires |p| == LANES && 1 <= n <= LANES
    ensures MaskUpTo(1, p, n) == if p[0] then 1 else 0
  {
    hide Bit;
    OnlyLaneZero(n - 1);
    if n > 1 {
      MaskOfLaneZero(p, n - 1);
    }
  }

  lemma VectorOfLaneZero(op: VBinary, dst: VIdx, x: LaneSource, y: LaneSource, v: VFile)
    ensures VBinAll(op, dst, x, y, 1, v) == v[0 := VBinLane(op, dst, x, y, v[0], 0)]
  {
    hide Bit, VBinLane;
    forall l: nat | l < LANES ensures Bit(1, l) <==> l == 0 { OnlyLaneZero(l); }
  }

  lemma CounterStored(lds: Lds, w: Word)
    ensures Counter(LdsPut(CFG, lds, 0, DataBytes([w], 4))) == w
  {
    hide ByteOf, Wide;
    var b := DataBytes([w], 4);
    var b' := LdsBytes(CFG, LdsPut(CFG, lds, 0, b), 0, 4);
    assert b' == b;
    WordBack(w);
    assert b == [ByteOf(w, 0), ByteOf(w, 1), ByteOf(w, 2), ByteOf(w, 3)];
  }

  lemma ZeroAddress()
    ensures RawAddress(0, 0) == 0
  {
  }

  // Lane 0 alone is active and its address register is zero.
  predicate Alone0(c: Core) {
    c.exec == 1 && c.v[0][0] == 0 && c.cycles.NoKeys?
  }

  // The registers with lane 0's v1 replaced.
  function WithV1(v: VFile, w: Word): VFile {
    v[0 := v[0][1 := w]]
  }

  lemma Overwritten(v: VFile, a: Word, b: Word)
    ensures WithV1(WithV1(v, a), b) == WithV1(v, b)
  {
    assert v[0][1 := a][1 := b] == v[0][1 := b];
    assert v[0 := v[0][1 := a]][0 := v[0][1 := b]] == v[0 := v[0][1 := b]];
  }

  lemma LoadStep(c: Core, sh: Shared)
    requires Alone0(c) && c.pc == 0
    ensures Step(CounterProgram(), CFG, c, sh)
         == Stepped(Fetched(c).(v := WithV1(c.v, Counter(sh.lds))), sh, Fine)
  {
    hide Dword, LdsBytes, Bit;
    var op := OpAt(0);
    StepIs(CounterProgram(), CFG, c, sh, op);
    ZeroAddress();
    LdsModel.DsOfLaneZero(CFG, op.ds, c.v, sh.lds, LANES);
    assert sh.(lds := sh.lds) == sh;
  }

  lemma AddStep(c: Core, sh: Shared)
    requires Alone0(c) && c.pc == 1
    ensures Step(CounterProgram(), CFG, c, sh) == Stepped(Fetched(c).(v := WithV1(c.v, EvalV(VAddU32, c.v[0][1], 1))), sh, Fine)
  {
    hide Bit, EvalV;
    StepIs(CounterProgram(), CFG, c, sh, OpAt(1));
    VectorOfLaneZero(VAddU32, 1, FromReg(1), Constant(1), c.v);
  }

  lemma StoreStep(c: Core, sh: Shared)
    requires Alone0(c) && c.pc == 2
    ensures var r := Step(CounterProgram(), CFG, c, sh);
            r == Stepped(Fetched(c), sh.(lds := r.shared.lds), Fine) && Counter(r.shared.lds) == c.v[0][1]
  {
    hide Dword, LdsBytes, LdsPut, DataBytes, Bit;
    var op := OpAt(2);
    StepIs(CounterProgram(), CFG, c, sh, op);
    ZeroAddress();
    LdsModel.DsOfLaneZero(CFG, op.ds, c.v, sh.lds, LANES);
    assert StoreWords(c.v[0], One(1), false) == [c.v[0][1]];
    CounterStored(sh.lds, c.v[0][1]);
    assert c.v[0 := c.v[0]] == c.v;
  }

  lemma CompareStep(c: Core, sh: Shared)
    requires Alone0(c) && c.pc == 3
    ensures Step(CounterProgram(), CFG, c, sh) == Stepped(Fetched(c).(vcc := if c.v[0][1] != 3 then 1 else 0), sh, Fine)
  {
    hide Bit;
    StepIs(CounterProgram(), CFG, c, sh, OpAt(3));
    var p := CompareAll(VNeU32, FromReg(1), Constant(3), c.v);
    MaskOfLaneZero(p, LANES);
  }

  lemma ClearStep(c: Core, sh: Shared)
    requires Alone0(c) && c.pc == 4
    ensures Step(CounterProgram(), CFG, c, sh) == Stepped(Fetched(c).(v := WithV1(c.v, 0)), sh, Fine)
  {
    hide Bit;
    StepIs(CounterProgram(), CFG, c, sh, OpAt(4));
    VectorOfLaneZero(VMovB32, 1, Constant(0), Constant(0), c.v);
  }

  lemma NopStep(c: Core, sh: Shared)
    requires c.cycles.NoKeys? && 5 <= c.pc < 255
    ensures Step(CounterProgram(), CFG, c, sh) == Stepped(Fetched(c), sh, Fine)
  {
    StepIs(CounterProgram(), CFG, c, sh, OpAt(c.pc));
  }

  lemma {:induction false} Nops(c: Core, sh: Shared, n: nat)
    requires c.cycles.NoKeys? && 5 <= c.pc && c.pc + n <= 255
    ensures Run(CounterProgram(), CFG, c, sh, n) == Stepped(c.(pc := c.pc + n, steps := c.steps + n), sh, Fine)
    decreases n
  {
    hide Step;
    if n > 0 {
      NopStep(c, sh);
      Nops(Fetched(c), sh, n - 1);
    }
  }

  // From the top of the loop to its branch: 255 steps, one more count.
  lemma Body(c: Core, sh: Shared) returns (sh': Shared)
    requires Alone0(c) && c.pc == 0
    ensures Counter(sh'.lds) == EvalV(VAddU32, Counter(sh.lds), 1) && sh' == sh.(lds := sh'.lds)
    ensures Run(CounterProgram(), CFG, c, sh, 255)
         == Stepped(c.(pc := 255, steps := c.steps + 255, v := WithV1(c.v, 0),
                       vcc := if Counter(sh'.lds) != 3 then 1 else 0), sh', Fine)
  {
    hide Step, EvalV, Run, Counter;
    var p := CounterProgram();
    LoadStep(c, sh);
    RunOne(p, CFG, c, sh);
    var c1 := Step(p, CFG, c, sh).core;
    AddStep(c1, sh);
    RunOne(p, CFG, c1, sh);
    RunJoins(p, CFG, c, sh, 1, 1);
    var c2 := Step(p, CFG, c1, sh).core;
    StoreStep(c2, sh);
    RunOne(p, CFG, c2, sh);
    RunJoins(p, CFG, c, sh, 2, 1);
    var c3 := Step(p, CFG, c2, sh).core;
    sh' := Step(p, CFG, c2, sh).shared;
    CompareStep(c3, sh');
    RunOne(p, CFG, c3, sh');
    RunJoins(p, CFG, c, sh, 3, 1);
    var c4 := Step(p, CFG, c3, sh').core;
    ClearStep(c4, sh');
    RunOne(p, CFG, c4, sh');
    RunJoins(p, CFG, c, sh, 4, 1);
    var c5 := Step(p, CFG, c4, sh').core;
    Nops(c5, sh', 250);
    RunJoins(p, CFG, c, sh, 5, 250);
    assert WithV1(WithV1(WithV1(c.v, Counter(sh.lds)), EvalV(VAddU32, Counter(sh.lds), 1)), 0) == WithV1(c.v, 0) by {
      Overwritten(c.v, Counter(sh.lds), EvalV(VAddU32, Counter(sh.lds), 1));
      Overwritten(c.v, EvalV(VAddU32, Counter(sh.lds), 1), 0);
    }
  }

  // The branch at the bottom goes back while the counter differs from 3.
  lemma BranchStep(c: Core, sh: Shared)
    requires c.cycles.NoKeys? && c.pc == 255
    ensures Step(CounterProgram(), CFG, c, sh)
         == Stepped(Fetched(c).(pc := if c.vcc != 0 then 0 else 256), sh, Fine)
  {
    StepIs(CounterProgram(), CFG, c, sh, OpAt(255));
  }

  // One turn of the loop, silently.
  lemma Turn(c: Core, sh: Shared) returns (sh': Shared)
    requires Alone0(c) && c.pc == 0
    ensures Counter(sh'.lds) == EvalV(VAddU32, Counter(sh.lds), 1) && sh' == sh.(lds := sh'.lds)
    ensures Run(CounterProgram(), CFG, c, sh, 256)
         == Stepped(c.(pc := if Counter(sh'.lds) != 3 then 0 else 256, steps := c.steps + 256, v := WithV1(c.v, 0),
                       vcc := if Counter(sh'.lds) != 3 then 1 else 0), sh', Fine)
  {
    hide Step, EvalV, Run, Counter;
    sh' := Body(c, sh);
    var d := Run(CounterProgram(), CFG, c, sh, 255).core;
    BranchStep(d, sh');
    RunOne(CounterProgram(), CFG, d, sh');
    RunJoins(CounterProgram(), CFG, c, sh, 255, 1);
  }

  // ---------------- the same wave, sampled ----------------

  // A step that is not a sample is the silent step.
  lemma QuietStep(prog: Program, cfg: Config, c: Core, sh: Shared)
    requires (c.steps + 1) % 256 != 0
    requires Step(prog, cfg, Silent(c), sh).signal.Fine?
    ensures var q := Step(prog, cfg, Silent(c), sh);
            Step(prog, cfg, c, sh) == q.(core := q.core.(cycles := c.cycles))
  {
    hide Step, Dispatch;
    OpenStep(prog, cfg, Silent(c), sh);
    SilentStep(prog, cfg, Silent(c), sh);
    UnsampledStep(prog, cfg, c, sh);
    var op := prog[c.pc].op;
    DispatchCovers(Fetched(Silent(c)), Fetched(c), sh, op, cfg);
    DispatchCovers(Fetched(c), Fetched(Silent(c)), sh, op, cfg);
    KeepsTable(Fetched(c), sh, op, cfg);
    KeepsTable(Fetched(Silent(c)), sh, op, cfg);
  }

  lemma UnsampledStep(prog: Program, cfg: Config, c: Core, sh: Shared)
    requires (c.steps + 1) % 256 != 0 && c.pc < |prog|
    ensures Step(prog, cfg, c, sh) == Dispatch(cfg, Fetched(c), sh, prog[c.pc].op)
  {
    hide Dispatch;
  }

  lemma {:induction false} QuietRun(prog: Program, cfg: Config, c: Core, sh: Shared, n: nat)
    requires c.steps % 256 + n < 256
    requires Run(prog, cfg, Silent(c), sh, n).signal.Fine?
    ensures var q := Run(prog, cfg, Silent(c), sh, n);
            Run(prog, cfg, c, sh, n) == q.(core := q.core.(cycles := c.cycles))
    decreases n
  {
    hide Step;
    if n > 0 {
      var q := Step(prog, cfg, Silent(c), sh);
      QuietStep(prog, cfg, c, sh);
      OneMoreStep(prog, cfg, Silent(c), sh);
      StaysSilent(prog, cfg, Silent(c), sh);
      assert Silent(q.core.(cycles := c.cycles)) == q.core;
      QuietRun(prog, cfg, q.core.(cycles := c.cycles), q.shared, n - 1);
    }
  }

  lemma OneMoreStep(prog: Program, cfg: Config, c: Core, sh: Shared)
    requires c.cycles.NoKeys? && Step(prog, cfg, c, sh).signal.Fine?
    ensures Step(prog, cfg, c, sh).core.steps == c.steps + 1
  {
    hide Step, Dispatch;
    OpenStep(prog, cfg, c, sh);
    SilentStep(prog, cfg, c, sh);
    KeepsTable(Fetched(c), sh, prog[c.pc].op, cfg);
  }

  // The wave as it starts: one active lane, nothing sampled, the counter at zero.
  predicate Starts(c: Core, sh: Shared) {
    && Alone0(Silent(c)) && c.pc == 0 && c.steps == 0
    && c.cycles == Keys(map[], map[]) && Counter(sh.lds) == 0
  }

  lemma Counts()
    ensures EvalV(VAddU32, 0, 1) == 1 && EvalV(VAddU32, 1, 1) == 2 && EvalV(VAddU32, 2, 1) == 3
  {
  }

  /** With sampling the wave is stopped as a cycle at its 512th step; without
      it, the wave leaves the loop after 768 steps and ends. */
  lemma {:induction false} SpuriousCycle(c: Core, sh: Shared)
    requires Starts(c, sh)
    ensures var r := Run(CounterProgram(), CFG, c, sh, 511);
            r.signal.Fine? && Step(CounterProgram(), CFG, r.core, r.shared).signal.Cycle?
    ensures var q := Run(CounterProgram(), CFG, Silent(c), sh, 768);
            q.signal.Fine? && Step(CounterProgram(), CFG, q.core, q.shared).signal.End?
  {
    hide Step, Run, Counter, EvalV;
    Counts();
    SampledStops(c, sh);
    SilentEnds(c, sh);
  }

  lemma SilentEnds(c: Core, sh: Shared)
    requires Starts(c, sh)
    ensures var q := Run(CounterProgram(), CFG, Silent(c), sh, 768);
            q.signal.Fine? && Step(CounterProgram(), CFG, q.core, q.shared).signal.End?
  {
    hide Step, Run, Counter, EvalV;
    Counts();
    var p := CounterProgram();
    var sh1 := Turn(Silent(c), sh);
    var c1 := Run(p, CFG, Silent(c), sh, 256).core;
    var sh2 := Turn(c1, sh1);
    RunJoins(p, CFG, Silent(c), sh, 256, 256);
    var c2 := Run(p, CFG, c1, sh1, 256).core;
    var sh3 := Turn(c2, sh2);
    RunJoins(p, CFG, Silent(c), sh, 512, 256);
    var c3 := Run(p, CFG, c2, sh2, 256).core;
    StepIs(p, CFG, c3, sh3, OpAt(256));
  }

  lemma SampledStops(c: Core, sh: Shared)
    requires Starts(c, sh)
    ensures var r := Run(CounterProgram(), CFG, c, sh, 511);
            r.signal.Fine? && Step(CounterProgram(), CFG, r.core, r.shared).signal.Cycle?
  {
    hide Step, Run, Counter, EvalV;
    Counts();
    var p := CounterProgram();
    var sh1 := Body(Silent(c), sh);
    QuietRun(p, CFG, c, sh, 255);
    var d := Run(p, CFG, c, sh, 255).core;
    RunLast(p, CFG, c, sh, 255);
    SampleOnce(d, sh1);
    var c1 := Step(p, CFG, d, sh1).core;
    var sh2 := Body(Silent(c1), sh1);
    QuietRun(p, CFG, c1, sh1, 255);
    RunJoins(p, CFG, c, sh, 256, 255);
    var d' := Run(p, CFG, c1, sh1, 255).core;
    Overwritten(c.v, 0, 0);
    assert KeyOf(Counted(d')) == KeyOf(Counted(d)) && FingerprintOf(Counted(d'), sh2) == FingerprintOf(Counted(d), sh1);
    SampleTwice(d', sh2);
  }

  // The first sample records the state and the branch goes back.
  lemma SampleOnce(d: Core, sh: Shared)
    requires d.pc == 255 && d.steps == 255 && d.cycles == Keys(map[], map[]) && d.vcc == 1
    ensures Step(CounterProgram(), CFG, d, sh)
         == Stepped(d.(pc := 0, steps := 256,
              cycles := Keys(map[KeyOf(Counted(d)) := 256], map[KeyOf(Counted(d)) := FingerprintOf(Counted(d), sh)])), sh, Fine)
  {
    hide Dispatch, KeyOf, FingerprintOf;
    BranchDispatch(Sampled(d, sh).(pc := 256), sh);
  }

  lemma BranchDispatch(c: Core, sh: Shared)
    requires c.vcc == 1
    ensures Dispatch(CFG, c, sh, OpAt(255)) == Stepped(c.(pc := 0), sh, Fine)
  {
  }

  lemma SampleTwice(d: Core, sh: Shared)
    requires d.pc == 255 && d.steps == 511 && Recurs(Counted(d), sh)
    ensures Step(CounterProgram(), CFG, d, sh).signal.Cycle?
  {
    hide Dispatch, Recurs;
  }

  /** There is such a wave. */
  lemma StartExists() returns (c: Core, sh: Shared)
    ensures Starts(c, sh)
  {
    c := Core(0, seq(128, i => 0), {}, CLEAR, 0, false, 1, 0, false, Keys(map[], map[]));
    var lds: Lds := seq(LDS_IMAGE, i => 0);
    sh := Shared(lds, map[]);
    assert LdsBytes(CFG, lds, 0, 4) == [0, 0, 0, 0];
    ZeroBytes();
  }

  lemma ZeroBytes()
    ensures Dword([0, 0, 0, 0], 0) == 0
  {
  }
}
