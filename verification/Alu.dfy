/** The data-processing arms of the interpreter: what each writes, as a function of the registers. */
module Alu {
  import opened Words
  import opened Machine

  /** At most one register write, one flag update and one thread-register write. */
  datatype Effect = Effect(write: Option<(Reg, uint64)>, flags: Option<Flags>, tpidr: Option<uint64>)

  const NO_EFFECT := Effect(None, None, None)

  function WriteTo(o: Option<Reg>, val: uint64): Effect {
    if o.Some? then Effect(Some((o.value, val)), None, None) else NO_EFFECT
  }

  function Apply(e: Effect, s: Regs): Regs {
    var s1 := if e.write.Some? then SetReg(e.write.value.0, e.write.value.1, s) else s;
    var s2 := if e.flags.Some? then s1.(pstate := SetFlags(s1.pstate, e.flags.value)) else s1;
    if e.tpidr.Some? then s2.(tpidr := e.tpidr.value) else s2
  }

  /** The register of a plain register operand, the only form some arms accept. */
  function PlainReg(o: Operand): Option<Reg> { if o.RegOp? then Some(o.reg) else None }

  /** The two sources of a two- or three-operand arm. */
  function Sources(ops: seq<Operand>): (Operand, Operand)
    requires |ops| >= 2
  {
    if |ops| >= 3 then (ops[1], ops[2]) else (ops[0], ops[1])
  }

  // ---------- add, subtract, logic, move ----------

  function AddEffect(op: Op, ops: seq<Operand>, s: Regs): Effect {
    if |ops| < 2 then NO_EFFECT
    else
      var target := if op == CMN then None else OpReg(ops[0]);
      var (op1, op2) := if op == CMN then (ops[0], ops[1]) else Sources(ops);
      var v1, v2 := OperandVal(op1, s), OperandVal(op2, s);
      var flags := AddFlags(v1, v2, OperandWidth(op1));
      if target.Some? then Effect(Some((target.value, Wrap64(v1 + v2))), if op == ADDS then Some(flags) else None, None)
      else if op == CMN then Effect(None, Some(flags), None)
      else NO_EFFECT
  }

  function SubEffect(op: Op, ops: seq<Operand>, s: Regs): Effect {
    if |ops| < 2 then NO_EFFECT
    else
      var target := if op == CMP then None else OpReg(ops[0]);
      var (op1, op2) := if op == CMP then (ops[0], ops[1]) else Sources(ops);
      var v1, v2 := OperandVal(op1, s), OperandVal(op2, s);
      WriteTo(target, Wrap64(v1 - v2)).(
        flags := if op == SUBS || op == CMP then Some(SubFlags(v1, v2, OperandWidth(op1))) else None)
  }

  function AndEffect(op: Op, ops: seq<Operand>, s: Regs): Effect {
    if |ops| < 2 || OpReg(ops[0]).None? then NO_EFFECT
    else
      var (op1, op2) := if op == TST then (ops[0], ops[1]) else Sources(ops);
      var res := And64(OperandVal(op1, s), OperandVal(op2, s));
      WriteTo(if op == TST then None else OpReg(ops[0]), res).(
        flags := if op == ANDS || op == TST then Some(LogicFlags(res, OperandWidth(op1))) else None)
  }

  function OrEffect(op: Op, ops: seq<Operand>, s: Regs): Effect {
    if |ops| < 2 then NO_EFFECT
    else
      var (op1, op2) := Sources(ops);
      var v1, v2 := OperandVal(op1, s), OperandVal(op2, s);
      WriteTo(OpReg(ops[0]), if op == EOR then Xor64(v1, v2) else Or64(v1, v2))
  }

  // ---------- multiply and divide ----------

  function Narrow(v: uint64, r: Reg): uint64 { if r.IsW() then v % TWO32 else v }

  /** Division truncated toward zero. */
  function TruncDiv(a: int, b: int): int
    requires b != 0
  {
    var q := (if a < 0 then -a else a) / (if b < 0 then -b else b);
    if (a < 0) == (b < 0) then q else -q
  }

  /** Signed division of the minimum by -1 does not fit and stops the host program. */
  predicate DivideOverflows(ops: seq<Operand>, s: Regs) {
    |ops| >= 3 && PlainReg(ops[0]).Some? &&
    var w := PlainReg(ops[0]).value.Width();
    && Signed(OperandVal(ops[1], s) % w.Modulus(), w) == 0 - w.Half()
    && Signed(OperandVal(ops[2], s) % w.Modulus(), w) == -1
  }

  function DivEffect(op: Op, ops: seq<Operand>, s: Regs): Effect {
    if |ops| < 3 || PlainReg(ops[0]).None? then NO_EFFECT
    else
      var r := PlainReg(ops[0]).value;
      var w := r.Width();
      var v1, v2 := OperandVal(ops[1], s) % w.Modulus(), OperandVal(ops[2], s) % w.Modulus();
      if v2 == 0 then WriteTo(Some(r), 0)
      else if op == UDIV then
        QuotientBelow(v1, v2);
        WriteTo(Some(r), v1 / v2)
      else WriteTo(Some(r), TruncDiv(Signed(v1, w), Signed(v2, w)) % w.Modulus())
  }

  function MulEffect(op: Op, ops: seq<Operand>, s: Regs): Effect {
    if |ops| < 3 then NO_EFFECT
    else
      var v1, v2 := OperandVal(ops[1], s), OperandVal(ops[2], s);
      if op == MUL then WriteTo(PlainReg(ops[0]), Wrap64(v1 * v2))
      else if op == UMULH then WriteTo(OpReg(ops[0]), Wrap64(v1 * v2 / TWO64))
      else WriteTo(OpReg(ops[0]), Wrap64(Signed(v1, W64) * Signed(v2, W64) / TWO64))
  }

  function MulAddEffect(op: Op, ops: seq<Operand>, s: Regs): Effect {
    if |ops| < 4 || PlainReg(ops[0]).None? then NO_EFFECT
    else
      var r := PlainReg(ops[0]).value;
      var v1, v2, v3 := Narrow(OperandVal(ops[1], s), r), Narrow(OperandVal(ops[2], s), r), Narrow(OperandVal(ops[3], s), r);
      WriteTo(Some(r), if op == MADD then Wrap64(v3 + v1 * v2) else Wrap64(v3 - v1 * v2))
  }

  // ---------- conditional select and compare ----------

  function SelectEffect(op: Op, ops: seq<Operand>, s: Regs): Effect {
    if |ops| < 4 || !ops[3].CondOp? then NO_EFFECT
    else
      var v1, v2 := OperandVal(ops[1], s), OperandVal(ops[2], s);
      var res :=
        if EvalCond(ops[3].cond, GetFlags(s.pstate)) then v1
        else match op
          case CSINC => Wrap64(v2 + 1)
          case CSINV => Not64(v2)
          case CSNEG => Wrap64(0 - v2)
          case _ => v2;
      WriteTo(OpReg(ops[0]), res)
  }

  function CondIncEffect(op: Op, ops: seq<Operand>, s: Regs): Effect {
    if |ops| < 3 || !ops[2].CondOp? then NO_EFFECT
    else
      var vn := OperandVal(ops[1], s);
      var res :=
        if !EvalCond(ops[2].cond, GetFlags(s.pstate)) then vn
        else match op
          case CINC => Wrap64(vn + 1)
          case CINV => Not64(vn)
          case _ => Wrap64(0 - vn);
      WriteTo(OpReg(ops[0]), res)
  }

  function CondSetEffect(op: Op, ops: seq<Operand>, s: Regs): Effect {
    if |ops| < 2 || !ops[1].CondOp? then NO_EFFECT
    else
      var holds := EvalCond(ops[1].cond, GetFlags(s.pstate));
      WriteTo(OpReg(ops[0]), if !holds then 0 else if op == CSETM then TWO64 - 1 else 1)
  }

  /** The flag immediate of a conditional compare: N, Z, C, V from bit 3 down. */
  function ImmFlags(imm: uint64): Flags {
    Flags(imm / 8 % 2 == 1, imm / 4 % 2 == 1, imm / 2 % 2 == 1, imm % 2 == 1)
  }

  function CondCompareEffect(op: Op, ops: seq<Operand>, s: Regs): Effect {
    if |ops| < 4 || !ops[3].CondOp? then NO_EFFECT
    else if EvalCond(ops[3].cond, GetFlags(s.pstate)) then
      var v1, v2, w := OperandVal(ops[0], s), OperandVal(ops[1], s), OperandWidth(ops[0]);
      Effect(None, Some(if op == CCMN then AddFlags(v1, v2, w) else SubFlags(v1, v2, w)), None)
    else Effect(None, Some(ImmFlags(OperandVal(ops[2], s))), None)
  }

  // ---------- extensions, bitfields, shifts ----------

  function ExtendEffect(op: Op, ops: seq<Operand>, s: Regs): Effect {
    if |ops| < 2 then NO_EFFECT
    else
      var v := OperandVal(ops[1], s);
      WriteTo(OpReg(ops[0]),
              match op
              case SXTB => SignExtend(v, 8)
              case SXTH => SignExtend(v, 16)
              case SXTW => SignExtend(v, 32)
              case UXTB => v % 0x100
              case UXTH => v % 0x1_0000
              case _ => v % TWO32)
  }

  /** A mask of `width` low bits, saturating to all ones at the register width. */
  function FieldMask(width: nat, w: Width): (m: uint64)
    ensures m == if width >= w.Bits() then TWO64 - 1 else Pow2(width) - 1
  {
    if width >= w.Bits() then TWO64 - 1
    else
      Pow2Monotone(width, 64);
      Pow2Widths();
      Pow2(width) - 1
  }

  /** The `raw` field with its top bit copied upward. */
  function ExtendField(raw: uint64, mask: uint64, width: nat): uint64
    requires 0 < width
  {
    if And(raw, Pow2(width - 1)) != 0 then Or64(raw, Not64(mask)) else raw
  }

  /** An extract takes its width modulo 64. */
  function ExtractValue(signed: bool, v: uint64, lsb: nat, width: nat, w: Width): uint64 {
    var mask := FieldMask(width % 64, w);
    var raw := And64(ShiftRight(v, lsb % 64 % w.Bits()), mask);
    (if signed && width % 64 > 0 then ExtendField(raw, mask, width % 64) else raw) % w.Modulus()
  }

  function ExtractEffect(op: Op, ops: seq<Operand>, s: Regs): Effect {
    if |ops| < 4 || OpReg(ops[0]).None? then NO_EFFECT
    else
      WriteTo(OpReg(ops[0]),
              ExtractValue(op == SBFX, OperandVal(ops[1], s), OperandVal(ops[2], s), OperandVal(ops[3], s),
                           OpReg(ops[0]).value.Width()))
  }

  /** A bitfield move with its positions already reduced below the width. */
  function MoveValue(signed: bool, v: uint64, immr: nat, imms: nat, w: Width): uint64
    requires immr < w.Bits() && imms < w.Bits()
  {
    var val :=
      if imms >= immr then
        var mask := FieldMask(imms - immr + 1, w);
        var raw := And64(ShiftRight(v, immr), mask);
        if signed then ExtendField(raw, mask, imms - immr + 1) else raw
      else ShiftLeft(And64(v, FieldMask(imms + 1, w)), w.Bits() - immr, W64);
    val % w.Modulus()
  }

  function BitfieldMoveEffect(op: Op, ops: seq<Operand>, s: Regs): Effect {
    if |ops| < 4 || OpReg(ops[0]).None? then NO_EFFECT
    else
      var w := OpReg(ops[0]).value.Width();
      WriteTo(OpReg(ops[0]),
              MoveValue(op == SBFM, OperandVal(ops[1], s), OperandVal(ops[2], s) % w.Bits(), OperandVal(ops[3], s) % w.Bits(), w))
  }

  function ShiftValue(op: Op, v: nat, k: nat, w: Width): (r: uint64)
    requires v < w.Modulus() && k < w.Bits()
  {
    match op
    case LSL => ShiftLeft(v, k, w)
    case LSR => ShiftRight(v, k)
    case ASR => ShiftRightArith(v, k, w)
    case _ => RotateRight(v, k, w)
  }

  function ShiftEffect(op: Op, ops: seq<Operand>, s: Regs): Effect {
    if |ops| < 3 || OpReg(ops[0]).None? then NO_EFFECT
    else
      var w := OpReg(ops[0]).value.Width();
      var v, k := OperandVal(ops[1], s) % w.Modulus(), OperandVal(ops[2], s) % TWO32 % w.Bits();
      WriteTo(OpReg(ops[0]), ShiftValue(op, v, k, w))
  }

  /** The low word of a double word shifted right. */
  function DoubleShiftRight(hi: nat, lo: nat, k: nat, w: Width): uint64 {
    (hi * w.Modulus() + lo) / Pow2(k) % w.Modulus()
  }

  function ExtrEffect(ops: seq<Operand>, s: Regs): Effect {
    if |ops| < 4 || OpReg(ops[0]).None? then NO_EFFECT
    else
      var w := OpReg(ops[0]).value.Width();
      var vn, vm := OperandVal(ops[1], s) % w.Modulus(), OperandVal(ops[2], s) % w.Modulus();
      WriteTo(OpReg(ops[0]), DoubleShiftRight(vn, vm, OperandVal(ops[3], s) % TWO32 % (2 * w.Bits()), w))
  }

  // ---------- system registers ----------

  function MrsEffect(ops: seq<Operand>, s: Regs): Effect {
    if |ops| < 2 then NO_EFFECT
    else
      var val: uint64 :=
        match ops[1]
        case SysReg(TpidrEl0) => s.tpidr
        case SysReg(Dczid) => 0x10
        case SysReg(Cnt) => 1_000_000_000
        case _ => 0;
      WriteTo(OpReg(ops[0]), val)
  }

  function MsrEffect(ops: seq<Operand>, s: Regs): Effect {
    if |ops| >= 2 && ops[0] == SysReg(TpidrEl0) then Effect(None, None, Some(OperandVal(ops[1], s))) else NO_EFFECT
  }

  // ---------- dispatch ----------

  /** Opcodes whose modelled arm only reads and writes registers. */
  predicate IsData(op: Op) {
    match op
    case B => false
    case BCOND(_) => false
    case CBZ => false
    case CBNZ => false
    case BL => false
    case BLR => false
    case BR => false
    case RET => false
    case STP => false
    case LDP => false
    case SVC => false
    case FP(_) => false
    case OtherOp(_) => false
    case _ => true
  }

  /** Operand forms of data opcodes that the interpreter handles lane by lane or with four operands. */
  predicate VectorForm(i: Inst) {
    || (i.op in {ADD, ADDS, MOV, ORR, EOR, AND, ANDS, TST} && |i.operands| >= 2 && NamesVec(i.operands[0]))
    || (i.op == LSL && |i.operands| >= 4)
  }

  function DataEffect(i: Inst, s: Regs): Effect
    requires IsData(i.op)
  {
    var op, ops := i.op, i.operands;
    match op
    case NOP => NO_EFFECT
    case ADD => AddEffect(op, ops, s)
    case ADDS => AddEffect(op, ops, s)
    case CMN => AddEffect(op, ops, s)
    case SUB => SubEffect(op, ops, s)
    case SUBS => SubEffect(op, ops, s)
    case CMP => SubEffect(op, ops, s)
    case MOV => if |ops| < 2 then NO_EFFECT else WriteTo(OpReg(ops[0]), OperandVal(ops[1], s))
    case FMOV => if |ops| < 2 then NO_EFFECT else WriteTo(OpReg(ops[0]), OperandVal(ops[1], s))
    case AND => AndEffect(op, ops, s)
    case ANDS => AndEffect(op, ops, s)
    case TST => AndEffect(op, ops, s)
    case ORR => OrEffect(op, ops, s)
    case EOR => OrEffect(op, ops, s)
    case UDIV => DivEffect(op, ops, s)
    case SDIV => DivEffect(op, ops, s)
    case MUL => MulEffect(op, ops, s)
    case UMULH => MulEffect(op, ops, s)
    case SMULH => MulEffect(op, ops, s)
    case MADD => MulAddEffect(op, ops, s)
    case MSUB => MulAddEffect(op, ops, s)
    case CSEL => SelectEffect(op, ops, s)
    case CSINC => SelectEffect(op, ops, s)
    case CSINV => SelectEffect(op, ops, s)
    case CSNEG => SelectEffect(op, ops, s)
    case CINC => CondIncEffect(op, ops, s)
    case CINV => CondIncEffect(op, ops, s)
    case CNEG => CondIncEffect(op, ops, s)
    case CSET => CondSetEffect(op, ops, s)
    case CSETM => CondSetEffect(op, ops, s)
    case CCMP => CondCompareEffect(op, ops, s)
    case CCMN => CondCompareEffect(op, ops, s)
    case UBFX => ExtractEffect(op, ops, s)
    case SBFX => ExtractEffect(op, ops, s)
    case UBFM => BitfieldMoveEffect(op, ops, s)
    case SBFM => BitfieldMoveEffect(op, ops, s)
    case LSL => ShiftEffect(op, ops, s)
    case LSR => ShiftEffect(op, ops, s)
    case ASR => ShiftEffect(op, ops, s)
    case ROR => ShiftEffect(op, ops, s)
    case EXTR => ExtrEffect(ops, s)
    case ADRP =>
      if |ops| < 2 then NO_EFFECT
      else
        var a := OperandVal(ops[1], s);
        WriteTo(PlainReg(ops[0]), a - a % 0x1000)
    case ADR => if |ops| < 2 then NO_EFFECT else WriteTo(PlainReg(ops[0]), OperandVal(ops[1], s))
    case MRS => MrsEffect(ops, s)
    case MSR => MsrEffect(ops, s)
    case _ => ExtendEffect(op, ops, s)
  }
}
