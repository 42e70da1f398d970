/** Translation of one guest instruction to intermediate code. */
module Translator {
  import opened Words
  import opened Machine
  import opened ContextLayout
  import opened Ir

  // ---------- register access ----------

  predicate IsZero(r: Reg) { r.XZR? || r.WZR? }

  /** The block compiler counts WSP among the 32-bit registers; the interpreter does not. */
  predicate IsNarrow(r: Reg) { r.IsW() || r.WSP? }

  /** Byte offset of a register in the raw context. */
  function Offset(r: Reg): Option<nat> {
    match r
    case X(n) => Some(8 * n)
    case W(n) => Some(8 * n)
    case SP => Some(248)
    case WSP => Some(248)
    case _ => None
  }

  function VecOffset(r: Reg): Option<nat> {
    if r.Vec? then Some(272 + 16 * r.vn) else None
  }

  const TPIDR_OFFSET: nat := 784

  /** Code so far and the position of the value just produced. */
  datatype Emit = Emit(code: seq<Ir>, val: nat)

  function Push(code: seq<Ir>, i: Ir): Emit { Emit(code + [i], |code|) }

  function LoadReg(code: seq<Ir>, r: Reg): Emit {
    if IsZero(r) || Offset(r).None? then Push(code, Iconst(0))
    else
      var v := Push(code, Load(Offset(r).value));
      if IsNarrow(r) then
        var mask := Push(v.code, Iconst(0xffff_ffff));
        Push(mask.code, Band(v.val, mask.val))
      else v
  }

  function StoreReg(code: seq<Ir>, r: Reg, val: nat): seq<Ir> {
    if IsZero(r) || Offset(r).None? then code
    else if IsNarrow(r) then
      var mask := Push(code, Iconst(0xffff_ffff));
      var low := Push(mask.code, Band(val, mask.val));
      low.code + [Store(low.val, Offset(r).value)]
    else code + [Store(val, Offset(r).value)]
  }

  function LoadVec(code: seq<Ir>, r: Reg): Emit {
    if VecOffset(r).Some? then Push(code, Load(VecOffset(r).value)) else Push(code, Iconst(0))
  }

  function StoreVec(code: seq<Ir>, r: Reg, val: nat): seq<Ir> {
    if VecOffset(r).None? then code
    else
      var off := VecOffset(r).value;
      var zero := Push(code + [Store(val, off)], Iconst(0));
      zero.code + [Store(zero.val, off + 8)]
  }

  // ---------- operands ----------

  function OperandReg(o: Operand): Option<Reg> {
    match o
    case RegOp(r) => Some(r)
    case QualReg(r) => Some(r)
    case ShiftReg(r, _) => Some(r)
    case _ => None
  }

  /** Operand `k`'s register, when there is such an operand and it names one. */
  function RegAt(ops: seq<Operand>, k: nat): Option<Reg> {
    if k < |ops| then OperandReg(ops[k]) else None
  }

  function ImmAt(ops: seq<Operand>, k: nat, labels: bool): uint64 {
    if k < |ops| && ops[k].ImmOp? then ops[k].imm.ToU64()
    else if k < |ops| && ops[k].Label? && labels then ops[k].imm.ToU64()
    else 0
  }

  function LabelOr(ops: seq<Operand>, k: nat, otherwise: uint64): uint64 {
    if k < |ops| && ops[k].Label? then ops[k].imm.ToU64() else otherwise
  }

  /** The second source: its register, or an immediate. */
  function LoadSource(code: seq<Ir>, ops: seq<Operand>, k: nat, labels: bool): Emit {
    if RegAt(ops, k).Some? then LoadReg(code, RegAt(ops, k).value)
    else Push(code, Iconst(ImmAt(ops, k, labels)))
  }

  // ---------- instructions ----------

  datatype Kind =
    | Inert                // in the compiler's list, but its operands are not: nothing is emitted
    | Emitted
    | EndsBlock(ret: nat)      // ends the block, returning that value as the next pc
    | Boundary             // not in the compiler's list

  datatype Translation = Translation(code: seq<Ir>, kind: Kind)

  function BinaryIr(op: Op, a: nat, b: nat): Ir {
    match op
    case ADD => Iadd(a, b)
    case SUB => Isub(a, b)
    case AND => Band(a, b)
    case EOR => Bxor(a, b)
    case LSL => Ishl(a, b)
    case LSR => Ushr(a, b)
    case _ => Sshr(a, b)
  }

  function TranslateBinary(code: seq<Ir>, op: Op, ops: seq<Operand>): Translation {
    if RegAt(ops, 0).None? || RegAt(ops, 1).None? || (op in {ADD, SUB} && |ops| < 3) then Translation(code, Inert)
    else
      var n := LoadReg(code, RegAt(ops, 1).value);
      var m := LoadSource(n.code, ops, 2, op in {ADD, SUB});
      var r := Push(m.code, BinaryIr(op, n.val, m.val));
      Translation(StoreReg(r.code, RegAt(ops, 0).value, r.val), Emitted)
  }

  function TranslateMove(code: seq<Ir>, ops: seq<Operand>): Translation {
    if |ops| < 2 || RegAt(ops, 0).None? then Translation(code, Inert)
    else
      var v := LoadSource(code, ops, 1, true);
      Translation(StoreReg(v.code, RegAt(ops, 0).value, v.val), Emitted)
  }

  function TranslateZeroBranch(code: seq<Ir>, op: Op, ops: seq<Operand>, next: uint64): Translation {
    if RegAt(ops, 0).None? || |ops| < 2 then Translation(code, Inert)
    else
      var t := LoadReg(code, RegAt(ops, 0).value);
      var zero := Push(t.code, Iconst(0));
      var cond := Push(zero.code, if op == CBZ then IcmpEq(t.val, zero.val) else IcmpNe(t.val, zero.val));
      var taken := Push(cond.code, Iconst(LabelOr(ops, 1, next)));
      var through := Push(taken.code, Iconst(next));
      var pc := Push(through.code, Select(cond.val, taken.val, through.val));
      Translation(pc.code, EndsBlock(pc.val))
  }

  function TranslateFloat(code: seq<Ir>, f: FpOp, ops: seq<Operand>): Translation {
    if RegAt(ops, 0).None? || RegAt(ops, 1).None? || RegAt(ops, 2).None? then Translation(code, Inert)
    else
      var n := LoadVec(code, RegAt(ops, 1).value);
      var m := LoadVec(n.code, RegAt(ops, 2).value);
      var r := Push(m.code, Fbin(f, n.val, m.val));
      Translation(StoreVec(r.code, RegAt(ops, 0).value, r.val), Emitted)
  }

  function TranslateFloatMove(code: seq<Ir>, ops: seq<Operand>): Translation {
    if RegAt(ops, 0).None? || RegAt(ops, 1).None? then Translation(code, Inert)
    else
      var rd, rn := RegAt(ops, 0).value, RegAt(ops, 1).value;
      if rn.Vec? then
        var v := LoadVec(code, rn);
        Translation(if rd.Vec? then StoreVec(v.code, rd, v.val) else StoreReg(v.code, rd, v.val), Emitted)
      else if rd.Vec? then
        var v := LoadReg(code, rn);
        Translation(StoreVec(v.code, rd, v.val), Emitted)
      else Translation(code, Inert)
  }

  function Translate(code: seq<Ir>, i: Inst, pc: uint64): Translation
    requires pc + 4 < TWO64
  {
    var ops, next := i.operands, pc + 4;
    match i.op
    case NOP => Translation(code, Emitted)
    case MOV => TranslateMove(code, ops)
    case ORR => TranslateMove(code, ops)
    case ADD => TranslateBinary(code, ADD, ops)
    case SUB => TranslateBinary(code, SUB, ops)
    case AND => TranslateBinary(code, AND, ops)
    case EOR => TranslateBinary(code, EOR, ops)
    case LSL => TranslateBinary(code, LSL, ops)
    case LSR => TranslateBinary(code, LSR, ops)
    case ASR => TranslateBinary(code, ASR, ops)
    case B =>
      var t := Push(code, Iconst(LabelOr(ops, 0, next)));
      Translation(t.code, EndsBlock(t.val))
    case BL =>
      var lr := Push(code, Iconst(next));
      var t := Push(StoreReg(lr.code, X(30), lr.val), Iconst(LabelOr(ops, 0, next)));
      Translation(t.code, EndsBlock(t.val))
    case RET =>
      var lr := LoadReg(code, X(30));
      Translation(lr.code, EndsBlock(lr.val))
    case ADRP =>
      if RegAt(ops, 0).None? || |ops| < 2 then Translation(code, Inert)
      else
        var page := Push(code, Iconst(LabelOr(ops, 1, pc - pc % 0x1000)));
        Translation(StoreReg(page.code, RegAt(ops, 0).value, page.val), Emitted)
    case CBZ => TranslateZeroBranch(code, CBZ, ops, next)
    case CBNZ => TranslateZeroBranch(code, CBNZ, ops, next)
    case FP(f) => TranslateFloat(code, f, ops)
    case FMOV => TranslateFloatMove(code, ops)
    case MRS =>
      if RegAt(ops, 0).None? then Translation(code, Inert)
      else
        var t := Push(code, Load(TPIDR_OFFSET));
        Translation(StoreReg(t.code, RegAt(ops, 0).value, t.val), Emitted)
    case MSR =>
      if RegAt(ops, 1).None? then Translation(code, Inert)
      else
        var t := LoadReg(code, RegAt(ops, 1).value);
        Translation(t.code + [Store(t.val, TPIDR_OFFSET)], Emitted)
    case _ => Translation(code, Boundary)
  }

  /** Opcodes in the block compiler's list. */
  predicate Handles(op: Op) {
    op in {NOP, MOV, ORR, ADD, SUB, AND, EOR, LSL, LSR, ASR, B, BL, RET, ADRP, CBZ, CBNZ, FMOV, MRS, MSR} || op.FP?
  }
}
