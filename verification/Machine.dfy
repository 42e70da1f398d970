/** Registers, operands and instructions as the decoder names them, and the register file they act on. */
module Machine {
  import opened Words

  // ---------- registers ----------

  type GprIndex = n: nat | n < 31
  type VecIndex = n: nat | n < 32

  /** The part of a vector register that a name such as S3 or Q3 denotes. */
  datatype VecView = ViewB | ViewH | ViewS | ViewD | ViewQ | ViewV {
    /** One more than the largest value of the view's low eight bytes. */
    function Modulus(): nat {
      match this
      case ViewB => 0x100
      case ViewH => 0x1_0000
      case ViewS => TWO32
      case _ => TWO64
    }
  }

  datatype Reg = X(n: GprIndex) | W(n: GprIndex) | SP | WSP | XZR | WZR | Vec(view: VecView, vn: VecIndex) {
    predicate IsW() { W? || WZR? }

    function Width(): Width { if IsW() then W32 else W64 }
  }

  /** A 128-bit vector register as its two little-endian halves. */
  datatype VecReg = VecReg(lo: uint64, hi: uint64)

  datatype RegFile = RegFile(
    x: seq<uint64>, sp: uint64, pstate: uint32, pad: uint32, v: seq<VecReg>, tpidr: uint64)

  type Regs = f: RegFile | |f.x| == 31 && |f.v| == 32
    witness RegFile(seq(31, _ => 0), 0, 0, 0, seq(32, _ => VecReg(0, 0)), 0)

  datatype TargetOs = Linux | Darwin | Android

  datatype Ctx = Ctx(regs: Regs, pc: uint64, exited: bool, exitCode: int, os: TargetOs)

  function GetReg(r: Reg, s: Regs): uint64 {
    match r
    case X(n) => s.x[n]
    case W(n) => s.x[n] % TWO32
    case Vec(view, n) => s.v[n].lo % view.Modulus()
    case SP => s.sp
    case _ => 0
  }

  function SetReg(r: Reg, val: uint64, s: Regs): Regs {
    match r
    case X(n) => s.(x := s.x[n := val])
    case W(n) => s.(x := s.x[n := val % TWO32])
    case Vec(view, n) => s.(v := s.v[n := VecReg(val % view.Modulus(), 0)])
    case SP => s.(sp := val)
    case _ => s
  }

  // ---------- condition flags ----------

  datatype Flags = Flags(n: bool, z: bool, c: bool, v: bool)

  /** N, Z, C and V are bits 31 to 28 of the process state. */
  function GetFlags(p: uint32): Flags {
    Flags(p / 0x8000_0000 % 2 == 1, p / 0x4000_0000 % 2 == 1, p / 0x2000_0000 % 2 == 1, p / 0x1000_0000 % 2 == 1)
  }

  function SetFlags(p: uint32, f: Flags): (q: uint32)
    ensures GetFlags(q) == f && q % 0x1000_0000 == p % 0x1000_0000
  {
    p % 0x1000_0000
    + (if f.n then 0x8000_0000 else 0) + (if f.z then 0x4000_0000 else 0)
    + (if f.c then 0x2000_0000 else 0) + (if f.v then 0x1000_0000 else 0)
  }

  datatype Cond = EQ | NE | CS | CC | MI | PL | VS | VC | HI | LS | GE | LT | GT | LE | AL

  /** Conditional branches come with fourteen conditions: not with "always". */
  type BranchCond = c: Cond | c != AL witness EQ

  predicate EvalCond(c: Cond, f: Flags) {
    match c
    case EQ => f.z
    case NE => !f.z
    case CS => f.c
    case CC => !f.c
    case MI => f.n
    case PL => !f.n
    case VS => f.v
    case VC => !f.v
    case HI => f.c && !f.z
    case LS => !f.c || f.z
    case GE => f.n == f.v
    case LT => f.n != f.v
    case GT => !f.z && f.n == f.v
    case LE => f.z || f.n != f.v
    case AL => true
  }

  /** Flags of an addition, with overflow from the sign bits as the interpreter computes it. */
  function AddFlags(v1: uint64, v2: uint64, w: Width): Flags {
    var m := w.Modulus();
    var a, b := v1 % m, v2 % m;
    var res := (a + b) % m;
    Flags(res >= w.Half(), res == 0, a + b >= m, And(And(Xor(a, m - 1 - b), Xor(a, res)), w.Half()) != 0)
  }

  function SubFlags(v1: uint64, v2: uint64, w: Width): Flags {
    var m := w.Modulus();
    var a, b := v1 % m, v2 % m;
    var res := (a - b) % m;
    Flags(res >= w.Half(), res == 0, a >= b, And(And(Xor(a, b), Xor(a, res)), w.Half()) != 0)
  }

  function LogicFlags(v: uint64, w: Width): Flags {
    var res := v % w.Modulus();
    Flags(res >= w.Half(), res == 0, false, false)
  }

  // ---------- operands ----------

  datatype Shift =
    | Lsl(amt: uint32) | Lsr(amt: uint32) | Asr(amt: uint32) | Ror(amt: uint32)
    | Uxtb(amt: uint32) | Uxth(amt: uint32) | Uxtw(amt: uint32) | Uxtx(amt: uint32)
    | Sxtb(amt: uint32) | Sxth(amt: uint32) | Sxtw(amt: uint32) | Sxtx(amt: uint32)
    | Msl(amt: uint32)

  datatype Imm = SignedImm(i: int64) | UnsignedImm(u: uint64) {
    function ToU64(): uint64 { if SignedImm? then Wrap64(i) else u }

    /** The signed reading used for address offsets. */
    function ToI64(): int64 { if SignedImm? then i else Signed(u, W64) }
  }

  datatype SysName = TpidrEl0 | Dczid | Cnt | OtherSys

  datatype Operand =
    | RegOp(reg: Reg)
    | QualReg(reg: Reg)
    | ShiftReg(reg: Reg, shift: Shift)
    | MultiReg(first: Option<Reg>)
    | ImmOp(imm: Imm, ishift: Option<Shift>)
    | Label(imm: Imm)
    | CondOp(cond: Cond)
    | SysReg(name: SysName)
    | MemReg(reg: Reg)
    | MemOffset(reg: Reg, imm: Imm)
    | MemPreIdx(reg: Reg, imm: Imm)
    | MemPostIdxImm(reg: Reg, imm: Imm)
    | MemPostIdxReg(reg: Reg, index: Reg)
    | MemExt(reg: Reg, index: Reg, eshift: Option<Shift>)
    | OtherOperand

  /** A register value after the shift or extension of a register operand. */
  function EvalShift(raw: uint64, w: Width, sh: Shift): uint64 {
    var base := raw % w.Modulus();
    var k := sh.amt % w.Bits();
    match sh
    case Lsl(_) => ShiftLeft(base, k, w)
    case Lsr(_) => ShiftRight(base, k)
    case Asr(_) => ShiftRightArith(base, k, w)
    case Ror(_) => RotateRight(base, k, w)
    case Uxtb(n) => ShiftLeft(raw % 0x100, n % 64, W64)
    case Uxth(n) => ShiftLeft(raw % 0x1_0000, n % 64, W64)
    case Uxtw(n) => ShiftLeft(raw % TWO32, n % 64, W64)
    case Uxtx(n) => ShiftLeft(raw, n % 64, W64)
    case Sxtb(n) => ShiftLeft(SignExtend(raw, 8), n % 64, W64)
    case Sxth(n) => ShiftLeft(SignExtend(raw, 16), n % 64, W64)
    case Sxtw(n) => ShiftLeft(SignExtend(raw, 32), n % 64, W64)
    case Sxtx(n) => ShiftLeft(raw, n % 64, W64)
    case Msl(n) =>
      Pow2Monotone(n % 64, 63);
      Pow2Widths();
      Or64(ShiftLeft(raw, n % 64, W64), Pow2(n % 64) - 1)
  }

  function EvalImmShift(raw: uint64, sh: Option<Shift>): uint64 {
    match sh
    case Some(Lsl(n)) => ShiftLeft(raw, n % 64, W64)
    case Some(Lsr(n)) => ShiftRight(raw, n % 64)
    case Some(Asr(n)) => ShiftRightArith(raw, n % 64, W64)
    case Some(Ror(n)) => RotateRight(raw, n % 64, W64)
    case _ => raw
  }

  function OperandVal(o: Operand, s: Regs): uint64 {
    match o
    case RegOp(r) => GetReg(r, s)
    case QualReg(r) => GetReg(r, s)
    case ShiftReg(r, sh) => EvalShift(GetReg(r, s), r.Width(), sh)
    case ImmOp(imm, sh) => EvalImmShift(imm.ToU64(), sh)
    case Label(imm) => imm.ToU64()
    case _ => 0
  }

  /** The register an operand names, as the interpreter looks it up. */
  function OpReg(o: Operand): Option<Reg> {
    match o
    case RegOp(r) => Some(r)
    case QualReg(r) => Some(r)
    case ShiftReg(r, _) => Some(r)
    case MultiReg(r) => r
    case _ => None
  }

  predicate NamesW(o: Operand) { OpReg(o).Some? && OpReg(o).value.IsW() }

  predicate NamesVec(o: Operand) { OpReg(o).Some? && OpReg(o).value.Vec? }

  function OperandWidth(o: Operand): Width { if NamesW(o) then W32 else W64 }

  // ---------- instructions ----------

  datatype FpOp = FADD | FSUB | FMUL | FDIV

  datatype Op =
    | NOP | MOV | ADD | ADDS | CMN | SUB | SUBS | CMP | ORR | EOR | AND | ANDS | TST
    | UDIV | SDIV | MUL | UMULH | SMULH | MADD | MSUB
    | CSEL | CSINC | CSINV | CSNEG | CINC | CINV | CNEG | CSET | CSETM | CCMP | CCMN
    | SXTB | SXTH | SXTW | UXTB | UXTH | UXTW | UBFX | SBFX | UBFM | SBFM
    | LSL | LSR | ASR | ROR | EXTR | ADRP | ADR | FMOV | MRS | MSR
    | B | BCOND(c: BranchCond) | CBZ | CBNZ | BL | BLR | BR | RET | STP | LDP | SVC
    | FP(f: FpOp) | OtherOp(id: nat)

  datatype Inst = Inst(op: Op, operands: seq<Operand>)
}
