/** Decoded instructions: the representative part of the wave32 instruction set
    that the emulator interprets.  Operand texts are already parsed. */
module Isa {
  import opened Words

  type SIdx = i: int | 0 <= i < 128
  type VIdx = i: int | 0 <= i < 192

  // A printed register range, first register and length.
  datatype Span = Span(first: nat, count: nat)
  type SSpan = s: Span | 1 <= s.count && s.first + s.count <= 128 witness Span(0, 1)
  type VSpan = s: Span | 1 <= s.count && s.first + s.count <= 192 witness Span(0, 1)

  datatype SOperand =
    | SReg(i: SIdx)
    | VccLo
    | ExecLo
    | SccBit
    | M0
    | NullReg
    | Lit(v: int)

  datatype VOperand =
    | VReg(n: VIdx)
    | VNegReg(n: VIdx)      // printed as -vN
    | VccLane               // vcc_lo: this lane's bit
    | ExecLane              // exec_lo: this lane's bit
    | VScalar(i: SIdx)
    | VLit(w: Word)

  datatype SBinary = SAndB32 | SOrB32 | SXorB32 | SAndn2B32
  datatype SCompare = SEqU32 | SLgU32 | SLtU32 | SGeU32
  datatype SaveExec = AndSaveExec | Andn2SaveExec | AndNot1SaveExec | OrSaveExec | XorSaveExec
  datatype Branch = Always | Scc0 | Scc1 | VccZ | VccNz | ExecZ | ExecNz
  datatype VBinary = VAddU32 | VSubU32 | VAndB32 | VOrB32 | VXorB32 | VMinU32 | VMaxU32 | VLshlrevB32 | VMovB32
  datatype VCompare = VEqU32 | VNeU32 | VLtU32 | VGtU32 | VLeU32 | VGeU32

  // The destination of a load, or the data of a store: vN or v[a:b].
  datatype VData = One(n: VIdx) | Many(span: VSpan)

  // Bytes moved by one access.
  type Width = w: nat | 1 <= w <= 16 witness 4

  datatype DsOp =
    | DsLoad(dst: VData, addr: VIdx, imm: int, width: Width, d16hi: bool)
    | DsStore(addr: VIdx, data: VData, imm: int, width: Width, d16hi: bool)
    | DsLoad2(span: VSpan, addr: VIdx, off0: int, off1: int)
    | DsStore2(addr: VIdx, data0: VData, data1: VData, off0: int, off1: int)

  // Where a global access takes its address from.
  datatype GlobalAt =
    | AtPair(lo: VIdx, hi: VIdx)         // v[lo:hi]
    | AtLane(n: VIdx)                    // vN alone
    | AtBase(n: VIdx, base: SSpan)       // vN plus s[a:b]

  datatype GlobalOp =
    | GlobalLoad(dst: VData, at: GlobalAt, off: int, width: Width, signed: bool)
    | GlobalStore(at: GlobalAt, data: VData, off: int, width: Width)

  datatype Opcode =
    | SMov(dst: SOperand, src: SOperand)
    | SAddU32(dst: SOperand, a: SOperand, b: SOperand)
    | SAddcU32(dst: SOperand, a: SOperand, b: SOperand)
    | SBin(sop: SBinary, dst: SOperand, a: SOperand, b: SOperand)
    | SCselect(dst: SOperand, a: SOperand, b: SOperand)
    | SCmp(scmp: SCompare, a: SOperand, b: SOperand)
    | SSaveExec(save: SaveExec, dst: SOperand, a: SOperand)
    | SBranch(branch: Branch, target: nat)
    | SLoad(sdst: SSpan, base: SSpan, offset: SOperand)
    | VBin(vop: VBinary, vdst: VIdx, x: VOperand, y: VOperand)
    | VCmp(vcmp: VCompare, dst: SOperand, x: VOperand, y: VOperand)
    | VCmpx(vcmp: VCompare, x: VOperand, y: VOperand)
    | Ds(ds: DsOp)
    | DsBpermute(vdst: VIdx, x: VOperand, y: VOperand)
    | Global(global: GlobalOp)
    | Nop
    | Barrier(implemented: bool)   // any mnemonic containing "barrier"
    | EndPgm
    | Unimplemented

  // An instruction and the code address it was disassembled from, if any.
  datatype Instr = Instr(op: Opcode, address: Option<nat>)

  datatype Option<+T> = None | Some(value: T)

  type Program = seq<Instr>

  /** The evaluation of the vector integer ALU on one lane. */
  function EvalV(op: VBinary, a: Word, b: Word): Word {
    match op
    case VAddU32 => a + b
    case VSubU32 => a - b
    case VAndB32 => a & b
    case VOrB32 => a | b
    case VXorB32 => a ^ b
    case VMinU32 => if b < a then b else a
    case VMaxU32 => if b > a then b else a
    case VLshlrevB32 => b << (a & 31)
    case VMovB32 => a
  }

  predicate HoldsV(op: VCompare, a: Word, b: Word) {
    match op
    case VEqU32 => a == b
    case VNeU32 => a != b
    case VLtU32 => a < b
    case VGtU32 => a > b
    case VLeU32 => a <= b
    case VGeU32 => a >= b
  }

  predicate HoldsS(op: SCompare, a: Word, b: Word) {
    match op
    case SEqU32 => a == b
    case SLgU32 => a != b
    case SLtU32 => a < b
    case SGeU32 => a >= b
  }

  function EvalS(op: SBinary, a: Word, b: Word): Word {
    match op
    case SAndB32 => a & b
    case SOrB32 => a | b
    case SXorB32 => a ^ b
    case SAndn2B32 => a & !b
  }

  // The new EXEC of a saveexec instruction, from the old EXEC and the operand.
  function NewExec(op: SaveExec, exec: Word, a: Word): Word {
    match op
    case AndSaveExec => exec & a
    case Andn2SaveExec => a & !exec
    case AndNot1SaveExec => exec & !a
    case OrSaveExec => exec | a
    case XorSaveExec => exec ^ a
  }
}
