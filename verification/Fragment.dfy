/** The instruction forms on which generated code and the interpreter agree, and the proof that they do. */
module Fragment {
  import opened Words
  import opened Machine
  import opened Alu
  import opened Interp
  import opened ContextLayout
  import opened Ir
  import opened Translator
  import opened GeneratedCode

  // ---------- the agreeing forms ----------

  /** A shift of register `r` that leaves the low `w` bits of every value of the register as they are. */
  predicate NeutralShift(r: Reg, sh: Shift, w: Width) {
    match sh
    case Lsl(n) => IsZero(r) || n % r.Width().Bits() == 0
    case Lsr(n) => IsZero(r) || n % r.Width().Bits() == 0
    case Asr(n) => IsZero(r) || n % r.Width().Bits() == 0
    case Ror(n) => IsZero(r) || n % r.Width().Bits() == 0
    case Uxtw(n) => IsZero(r) || ((r.IsW() || w.W32?) && n % 64 == 0)
    case Sxtw(n) => IsZero(r) || (w.W32? && n % 64 == 0)
    case Uxtx(n) => IsZero(r) || n % 64 == 0
    case Sxtx(n) => IsZero(r) || n % 64 == 0
    case Msl(n) => n % 64 == 0
    case _ => IsZero(r)
  }

  /** The interpreter's value of an operand that is not a register. */
  function ConstantOf(o: Operand): uint64 {
    match o
    case ImmOp(imm, sh) => EvalImmShift(imm.ToU64(), sh)
    case Label(imm) => imm.ToU64()
    case _ => 0
  }

  /** The compiler's. */
  function JitConstant(o: Operand, labels: bool): uint64 {
    match o
    case ImmOp(imm, _) => imm.ToU64()
    case Label(imm) => if labels then imm.ToU64() else 0
    case _ => 0
  }

  /** A source of which the compiler reads the same low `w` bits as the interpreter. */
  predicate SourceAgrees(o: Operand, labels: bool, w: Width) {
    match o
    case RegOp(r) => Gpr(r)
    case QualReg(r) => Gpr(r)
    case ShiftReg(r, sh) => Gpr(r) && NeutralShift(r, sh, w)
    case _ => JitConstant(o, labels) % w.Modulus() == ConstantOf(o) % w.Modulus()
  }

  /** A third operand of ORR that adds no bit to `rn`: the compiler leaves it out. */
  predicate AddsNoBit(rn: Reg, o: Operand, w: Width) {
    match o
    case RegOp(r) => IsZero(r) || r == rn
    case QualReg(r) => IsZero(r) || r == rn
    case ShiftReg(r, sh) => (IsZero(r) || r == rn) && NeutralShift(r, sh, w)
    case _ => ConstantOf(o) % w.Modulus() == 0
  }

  /**
   Shift amounts that agree. The compiler takes them modulo 64 and shifts in 64 bits: right for 64-bit
   registers; for 32-bit ones only with a constant below 32, or 0 when arithmetic.
   */
  predicate AmountAgrees(op: Op, rd: Reg, rn: Reg, o: Operand) {
    if OperandReg(o).Some? then PlainGpr(o) && (rd.W? ==> IsZero(o.reg))
    else
      var j, c := JitConstant(o, false), ConstantOf(o);
      if rd.W? then rn.IsW() && j % 64 == c % 32 && (op == ASR ==> j % 64 == 0) else j % 64 == c % 64
  }

  predicate Is64(r: Reg) { r.Vec? && r.view.Modulus() == TWO64 }

  /** The part named on each side must be the eight bytes that are moved, or hold all of the value. */
  predicate FloatMoveAgrees(rd: Operand, rn: Operand) {
    || (PlainGpr(rd) && IsZero(rd.reg))
    || (PlainVec(rd) && PlainVec(rn) && Is64(rd.reg) && Is64(rn.reg))
    || (PlainVec(rd) && PlainGpr(rn) && (Is64(rd.reg) || IsZero(rn.reg) || (rd.reg.view.ViewS? && rn.reg.IsW())))
    || (PlainGpr(rd) && PlainVec(rn) && (Is64(rn.reg) || (rn.reg.view.ViewS? && rd.reg.IsW())))
  }

  /** Two sources; the results agree in the low bits that the destination keeps. */
  predicate ArithAgrees(op: Op, rd: Reg, ops: seq<Operand>)
    requires |ops| >= 3
  {
    && PlainGpr(ops[1])
    && ((op == AND && IsZero(ops[1].reg)) || SourceAgrees(ops[2], op in {ADD, SUB}, rd.Width()))
  }

  /** No destination register: the compiler skips the instruction, and the interpreter's arm writes nothing. */
  predicate Idle(ops: seq<Operand>) { |ops| == 0 || OpReg(ops[0]).None? }

  /** The data instructions of the agreeing fragment. A zero register as destination always agrees. */
  predicate DataInFragment(i: Inst) {
    var ops := i.operands;
    match i.op
    case NOP => true
    case MSR => if |ops| >= 2 && ops[0] == SysReg(TpidrEl0) then PlainGpr(ops[1]) else RegAt(ops, 1).None?
    case ADRP =>
      Idle(ops) || (|ops| >= 2 && ops[1].Label? && PlainGpr(ops[0]) &&
                    (IsZero(ops[0].reg) || (ops[0].RegOp? && ops[1].imm.ToU64() % 0x1000 == 0)))
    case FMOV => Idle(ops) || (|ops| >= 2 && FloatMoveAgrees(ops[0], ops[1]))
    case _ => Idle(ops) || (PlainGpr(ops[0]) && WriteAgrees(i.op, ops[0].reg, ops))
  }

  /** What is written to a general destination agrees. */
  predicate WriteAgrees(op: Op, rd: Reg, ops: seq<Operand>) {
    match op
    case MOV => |ops| >= 2 && (IsZero(rd) || SourceAgrees(ops[1], true, rd.Width()))
    case ORR => |ops| >= 3 && (IsZero(rd) || (PlainGpr(ops[1]) && AddsNoBit(ops[1].reg, ops[2], rd.Width())))
    case ADD => |ops| >= 3 && (IsZero(rd) || ArithAgrees(op, rd, ops))
    case SUB => |ops| >= 3 && (IsZero(rd) || ArithAgrees(op, rd, ops))
    case AND => |ops| >= 3 && (IsZero(rd) || ArithAgrees(op, rd, ops))
    case EOR => |ops| >= 3 && (IsZero(rd) || ArithAgrees(op, rd, ops))
    case MRS => |ops| >= 2 && (IsZero(rd) || ops[1] == SysReg(TpidrEl0))
    case _ => |ops| == 3 && (IsZero(rd) || (PlainGpr(ops[1]) && (IsZero(ops[1].reg) || AmountAgrees(op, rd, ops[1].reg, ops[2]))))
  }

  /** The agreeing fragment. Every opcode outside the compiler's list is absent: it is a block boundary. */
  predicate InFragment(i: Inst) {
    var ops := i.operands;
    match i.op
    case B => |ops| == 0 || ops[0].Label?
    case BL => |ops| >= 1 && ops[0].Label?
    case RET => true
    case CBZ => |ops| >= 2 && PlainGpr(ops[0]) && ops[1].Label?
    case CBNZ => |ops| >= 2 && PlainGpr(ops[0]) && ops[1].Label?
    case _ => DataForm(i) && !VectorForm(i) && DataInFragment(i)
  }

  // ---------- sources ----------

  lemma ShiftByNothing(v: nat, w: Width)
    requires v < w.Modulus()
    ensures ShiftLeft(v, 0, w) == v && ShiftRight(v, 0) == v
    ensures ShiftRightArith(v, 0, w) == v && RotateRight(v, 0, w) == v
  {
    assert Pow2(0) == 1;
    assert v % 1 == 0 && v / 1 == v;
  }

  lemma ShiftOfZero(k: nat, w: Width)
    requires k < w.Bits()
    ensures ShiftLeft(0, k, w) == 0 && ShiftRight(0, k) == 0
    ensures ShiftRightArith(0, k, w) == 0 && RotateRight(0, k, w) == 0
  {
    var p := Pow2(k);
    DivModUnique(0, p, 0, 0);
    assert 0 * p == 0;
  }

  lemma NeutralShiftValue(r: Reg, sh: Shift, w: Width, s: Regs)
    requires Gpr(r) && NeutralShift(r, sh, w)
    ensures EvalShift(GetReg(r, s), r.Width(), sh) % w.Modulus() == GetReg(r, s) % w.Modulus()
  {
    hide ShiftLeft, ShiftRight, ShiftRightArith, RotateRight, SignExtend, Or, Pow2;
    var v, wr := GetReg(r, s), r.Width();
    if IsZero(r) {
      ShiftOfZero(sh.amt % wr.Bits(), wr);
      ShiftOfZero(sh.amt % 64, W64);
      ExtendZero();
    } else {
      assert v % wr.Modulus() == v;
      ShiftByNothing(v, wr);
      ShiftByNothing(v, W64);
      ShiftByNothing(v % TWO32, W64);
      ShiftByNothing(SignExtend(v, 32), W64);
      ExtendLow(v);
    }
    assert Pow2(0) == 1 by { PowNothing(); }
    OrNothing(v);
  }

  lemma PowNothing()
    ensures Pow2(0) == 1
  {
  }

  lemma ExtendZero()
    ensures SignExtend(0, 8) == 0 && SignExtend(0, 16) == 0 && SignExtend(0, 32) == 0
  {
  }

  /** Sign extension from 32 bits keeps the low 32. */
  lemma ExtendLow(v: uint64)
    ensures SignExtend(v, 32) % TWO32 == v % TWO32 && v % TWO32 % TWO32 == v % TWO32
  {
    Pow2Widths();
    hide Pow2;
    var low := v % TWO32;
    var x := if low >= TWO31 then low - TWO32 else low;
    WrapMod(x, W32);
    ModAddMultiple(low, -1, TWO32);
  }

  /** An agreeing source has the same low bits for both. */
  lemma SourceValue(o: Operand, labels: bool, w: Width, s: Regs)
    requires SourceAgrees(o, labels, w)
    ensures JitValue(o, labels, s) % w.Modulus() == OperandVal(o, s) % w.Modulus()
  {
    hide EvalShift, EvalImmShift, NeutralShift;
    if o.ShiftReg? {
      NeutralShiftValue(o.reg, o.shift, w, s);
    }
  }

  lemma GprValue(o: Operand, s: Regs)
    requires PlainGpr(o)
    ensures OperandVal(o, s) == GetReg(o.reg, s) && RawRead(o.reg, s) == GetReg(o.reg, s)
    ensures o.reg.IsW() ==> GetReg(o.reg, s) < TWO32
  {
  }

  lemma ConstantValue(o: Operand, labels: bool, s: Regs)
    requires OperandReg(o).None?
    ensures JitValue(o, labels, s) == JitConstant(o, labels) && OperandVal(o, s) == ConstantOf(o)
  {
    hide EvalImmShift;
  }

  // ---------- results ----------

  /** Only the low bits of the destination's width are written; a zero register takes nothing. */
  lemma SetCongruent(r: Reg, x: uint64, y: uint64, s: Regs)
    requires Gpr(r) && (IsZero(r) || x % r.Width().Modulus() == y % r.Width().Modulus())
    ensures SetReg(r, x, s) == SetReg(r, y, s)
  {
  }

  /** The low bits of a result depend on the low bits of the second source alone. */
  lemma BinaryCongruent(op: Op, a: uint64, x: uint64, y: uint64, w: Width)
    requires op in {ADD, SUB, AND, EOR} && x % w.Modulus() == y % w.Modulus()
    ensures BinaryValue(op, a, x) % w.Modulus() == BinaryValue(op, a, y) % w.Modulus()
  {
    hide And, Xor, Pow2;
    var m := w.Modulus();
    WidthPowers(w);
    if op == ADD {
      SumCongruent(a, x, y, m);
      WrapMod(a + x, w);
      WrapMod(a + y, w);
    } else if op == SUB {
      SumCongruent(a, x, y, m);
      WrapMod(a - x, w);
      WrapMod(a - y, w);
    } else if op == AND {
      AndLow(a, x, w.Bits());
      AndLow(a, y, w.Bits());
    } else {
      XorLow(a, x, w.Bits());
      XorLow(a, y, w.Bits());
    }
  }

  // ---------- agreement, family by family ----------

  /** Generated code and interpreter make the same registers of a data instruction. */
  predicate SameRegs(i: Inst, s: Regs)
    requires DataForm(i) && IsData(i.op)
  {
    JitRegs(i, s) == Apply(DataEffect(i, s), s)
  }

  /** The interpreter's arm writes at most its first operand. */
  lemma WritesTarget(i: Inst, s: Regs)
    requires DataForm(i) && i.op != MSR
    ensures IsData(i.op) && DataEffect(i, s).flags == None && DataEffect(i, s).tpidr == None
    ensures var e := DataEffect(i, s);
            e.write.Some? ==> |i.operands| >= 1 && OpReg(i.operands[0]) == Some(e.write.value.0)
  {
    hide OperandVal, AddFlags, SubFlags, LogicFlags, OperandWidth, ShiftValue, And64, Or64, Xor64, Wrap64;
  }

  /** With a zero register as destination neither engine changes anything. */
  lemma ZeroDestAgrees(i: Inst, s: Regs)
    requires DataForm(i) && i.op != MSR && |i.operands| >= 1
    requires PlainGpr(i.operands[0]) && IsZero(i.operands[0].reg)
    ensures IsData(i.op) && SameRegs(i, s)
  {
    WritesTarget(i, s);
    ZeroDestJit(i, s);
    hide DataEffect, JitRegs;
  }

  lemma ZeroDestJit(i: Inst, s: Regs)
    requires DataForm(i) && i.op != MSR && |i.operands| >= 1
    requires PlainGpr(i.operands[0]) && IsZero(i.operands[0].reg)
    ensures JitRegs(i, s) == s
  {
    hide BinaryValue, RawRead, SourceAt;
  }

  lemma IdleAgrees(i: Inst, s: Regs)
    requires DataForm(i) && i.op != MSR && Idle(i.operands)
    ensures IsData(i.op) && SameRegs(i, s)
  {
    WritesTarget(i, s);
    IdleJit(i, s);
    hide DataEffect, JitRegs;
  }

  lemma IdleJit(i: Inst, s: Regs)
    requires DataForm(i) && i.op != MSR && Idle(i.operands)
    ensures JitRegs(i, s) == s && (i.op != NOP ==> !EmitsCode(i))
  {
    hide BinaryValue, RawRead, SourceAt;
  }

  /** A three-operand arithmetic arm writes what the emitted operation computes from the interpreter's operands. */
  lemma BinaryEffect(i: Inst, s: Regs)
    requires i.op in {ADD, SUB, AND, EOR} && |i.operands| >= 3 && PlainGpr(i.operands[0])
    ensures Apply(DataEffect(i, s), s) ==
            SetReg(i.operands[0].reg, BinaryValue(i.op, OperandVal(i.operands[1], s), OperandVal(i.operands[2], s)), s)
  {
    hide OperandVal, SetReg, AddFlags, SubFlags, LogicFlags, OperandWidth, SetFlags, Wrap64, And64, Xor64, Gpr;
  }

  /** What the compiler makes of the same arm with a plain first source. */
  lemma BinaryJit(i: Inst, s: Regs)
    requires IsBinary(i.op) && |i.operands| >= 3 && PlainGpr(i.operands[0]) && RegAt(i.operands, 1).Some?
    ensures EmitsCode(i)
    ensures JitRegs(i, s) ==
            SetReg(i.operands[0].reg,
                   BinaryValue(i.op, RawRead(RegAt(i.operands, 1).value, s), JitValue(i.operands[2], i.op in {ADD, SUB}, s)), s)
  {
    hide BinaryValue, RawRead, JitValue, SetReg;
  }

  lemma BinaryAgrees(i: Inst, s: Regs)
    requires i.op in {ADD, SUB, AND, EOR} && |i.operands| >= 3 && PlainGpr(i.operands[0])
    requires ArithAgrees(i.op, i.operands[0].reg, i.operands)
    ensures SameRegs(i, s)
  {
    hide OperandVal, JitValue, GetReg, SetReg, DataEffect, Apply, BinaryValue, SourceAgrees, JitRegs, RawRead;
    var rd, ops := i.operands[0].reg, i.operands;
    BinaryEffect(i, s);
    BinaryJit(i, s);
    GprValue(ops[1], s);
    var a := GetReg(ops[1].reg, s);
    var x, y := JitValue(ops[2], i.op in {ADD, SUB}, s), OperandVal(ops[2], s);
    if i.op == AND && IsZero(ops[1].reg) {
      ZeroReads(ops[1].reg, s);
      AndZero(x);
      AndZero(y);
    } else {
      SourceValue(ops[2], i.op in {ADD, SUB}, rd.Width(), s);
      BinaryCongruent(i.op, a, x, y, rd.Width());
    }
    SetCongruent(rd, BinaryValue(i.op, a, x), BinaryValue(i.op, a, y), s);
  }

  lemma ZeroReads(r: Reg, s: Regs)
    requires IsZero(r)
    ensures GetReg(r, s) == 0
  {
  }

  lemma AndZero(x: uint64)
    ensures BinaryValue(AND, 0, x) == 0
  {
  }

  // ---------- shifts ----------

  lemma ShiftForm(i: Inst, s: Regs)
    requires i.op in {LSL, LSR, ASR} && |i.operands| == 3 && PlainGpr(i.operands[0])
    ensures var rd, w := i.operands[0].reg, i.operands[0].reg.Width();
            var a, b := OperandVal(i.operands[1], s), OperandVal(i.operands[2], s);
            Apply(DataEffect(i, s), s) == SetReg(rd, ShiftValue(i.op, a % w.Modulus(), b % TWO32 % w.Bits(), w), s)
  {
    hide ShiftValue, OperandVal, SetReg;
  }

  lemma ShiftAgreement(i: Inst, s: Regs)
    requires i.op in {LSL, LSR, ASR} && |i.operands| == 3 && PlainGpr(i.operands[0]) && PlainGpr(i.operands[1])
    requires IsZero(i.operands[1].reg) || AmountAgrees(i.op, i.operands[0].reg, i.operands[1].reg, i.operands[2])
    requires !IsZero(i.operands[0].reg)
    ensures SameRegs(i, s)
  {
    hide ShiftValue, BinaryValue, OperandVal, JitValue, GetReg, SetReg, DataEffect, Apply, JitRegs, RawRead,
         AmountAgrees, ConstantOf, JitConstant;
    var rd, rn, o := i.operands[0].reg, i.operands[1].reg, i.operands[2];
    var w := rd.Width();
    ShiftForm(i, s);
    BinaryJit(i, s);
    GprValue(i.operands[1], s);
    var a, x, y := GetReg(rn, s), JitValue(o, false, s), OperandVal(o, s);
    if IsZero(rn) {
      ZeroReads(rn, s);
      ZeroShifted(i.op, x, y, w);
    } else {
      AmountsMeet(i.op, rd, rn, o, s);
      if rd.W? {
        NarrowShift(i.op, a, x, y);
      } else {
        WideShift(i.op, a, x, y);
      }
    }
    SetCongruent(rd, BinaryValue(i.op, a, x), ShiftValue(i.op, a % w.Modulus(), y % TWO32 % w.Bits(), w), s);
  }

  /** What agreeing amounts give, in numbers. */
  lemma AmountsMeet(op: Op, rd: Reg, rn: Reg, o: Operand, s: Regs)
    requires AmountAgrees(op, rd, rn, o)
    ensures var x, y := JitValue(o, false, s), OperandVal(o, s);
            if rd.W? then x % 64 == y % 32 && (x % 64 == 0 || (rn.IsW() && op != ASR)) else x % 64 == y % 64
  {
    hide EvalImmShift;
    if OperandReg(o).Some? {
      GprValue(o, s);
    } else {
      ConstantValue(o, false, s);
    }
  }

  lemma ZeroShifted(op: Op, x: uint64, y: uint64, w: Width)
    requires op in {LSL, LSR, ASR}
    ensures BinaryValue(op, 0, x) == 0 && ShiftValue(op, 0, y % TWO32 % w.Bits(), w) == 0
  {
    hide ShiftLeft, ShiftRight, ShiftRightArith;
    ShiftOfZero(x % 64, W64);
    ShiftOfZero(y % TWO32 % w.Bits(), w);
  }

  lemma LowAmount(b: uint64)
    ensures b % TWO32 % 32 == b % 32 && b % TWO32 % 64 == b % 64
  {
    DivDiv(b, 32, 0x800_0000);
    DivDiv(b, 64, 0x400_0000);
    ModAddMultiple(b % 32, b / 32 % 0x800_0000, 32);
    ModAddMultiple(b % 64, b / 64 % 0x400_0000, 64);
  }

  lemma WideShift(op: Op, a: uint64, x: uint64, y: uint64)
    requires op in {LSL, LSR, ASR} && x % 64 == y % 64
    ensures ShiftValue(op, a % TWO64, y % TWO32 % 64, W64) == BinaryValue(op, a, x)
  {
    hide ShiftLeft, ShiftRight, ShiftRightArith;
    LowAmount(y);
  }

  /** Below 32 places, shifting a zero-extended word in 64 bits and truncating is shifting it in 32. */
  lemma NarrowShift(op: Op, a: uint64, x: uint64, y: uint64)
    requires op in {LSL, LSR, ASR} && x % 64 == y % 32 && (x % 64 == 0 || (a < TWO32 && op != ASR))
    ensures ShiftValue(op, a % TWO32, y % TWO32 % 32, W32) % TWO32 == BinaryValue(op, a, x) % TWO32
  {
    LowAmount(y);
    NarrowShiftBy(op, a, x % 64);
    hide ShiftLeft, ShiftRight, ShiftRightArith;
  }

  lemma NarrowShiftBy(op: Op, a: uint64, k: nat)
    requires op in {LSL, LSR, ASR} && k < 32 && (k == 0 || (a < TWO32 && op != ASR))
    ensures ShiftValue(op, a % TWO32, k, W32) % TWO32 == ShiftValue(op, a, k, W64) % TWO32
  {
    hide ShiftLeft, ShiftRight, ShiftRightArith, Pow2;
    if k == 0 {
      ShiftByNothing(a % TWO32, W32);
      ShiftByNothing(a, W64);
      ExtendLow(a);
    } else {
      NarrowLeft(a, k);
    }
  }

  lemma NarrowLeft(a: nat, k: nat)
    requires a < TWO32
    ensures a % TWO32 == a && ShiftLeft(a, k, W32) == ShiftLeft(a, k, W64) % TWO32
  {
    WrapMod(a * Pow2(k), W32);
  }

  // ---------- moves ----------

  lemma MoveForm(i: Inst, s: Regs)
    requires i.op in {MOV, ORR} && |i.operands| >= (if i.op == ORR then 3 else 2) && PlainGpr(i.operands[0])
    ensures JitRegs(i, s) == SetReg(i.operands[0].reg, JitValue(i.operands[1], true, s), s)
    ensures Apply(DataEffect(i, s), s) ==
            SetReg(i.operands[0].reg,
                   if i.op == MOV then OperandVal(i.operands[1], s)
                   else Or64(OperandVal(i.operands[1], s), OperandVal(i.operands[2], s)), s)
  {
    hide OperandVal, JitValue, SetReg, Or64;
  }

  lemma MoveAgrees(i: Inst, s: Regs)
    requires i.op in {MOV, ORR} && |i.operands| >= (if i.op == ORR then 3 else 2) && PlainGpr(i.operands[0])
    requires WriteAgrees(i.op, i.operands[0].reg, i.operands) && !IsZero(i.operands[0].reg)
    ensures SameRegs(i, s)
  {
    hide OperandVal, JitValue, GetReg, SetReg, DataEffect, Apply, JitRegs, SourceAgrees, AddsNoBit, Or64, RawRead;
    var rd, ops := i.operands[0].reg, i.operands;
    MoveForm(i, s);
    if i.op == MOV {
      SourceValue(ops[1], true, rd.Width(), s);
      SetCongruent(rd, JitValue(ops[1], true, s), OperandVal(ops[1], s), s);
    } else {
      OrAgrees(ops[1], ops[2], rd.Width(), s);
      SetCongruent(rd, JitValue(ops[1], true, s), Or64(OperandVal(ops[1], s), OperandVal(ops[2], s)), s);
    }
  }

  lemma OrAgrees(rn: Operand, o: Operand, w: Width, s: Regs)
    requires PlainGpr(rn) && AddsNoBit(rn.reg, o, w)
    ensures Or64(OperandVal(rn, s), OperandVal(o, s)) % w.Modulus() == JitValue(rn, true, s) % w.Modulus()
  {
    hide EvalShift, Or, NeutralShift, EvalImmShift;
    GprValue(rn, s);
    var a, b := GetReg(rn.reg, s), OperandVal(o, s);
    if o.ShiftReg? {
      NeutralShiftValue(o.reg, o.shift, w, s);
    }
    OrCongruent(a, b, w);
  }

  lemma OrCongruent(a: uint64, b: uint64, w: Width)
    requires b % w.Modulus() == 0 || b % w.Modulus() == a % w.Modulus()
    ensures Or64(a, b) % w.Modulus() == a % w.Modulus()
  {
    hide Or, Pow2;
    WidthPowers(w);
    OrLow(a, b, w.Bits());
    OrNothing(a % w.Modulus());
    OrSelf(a % w.Modulus());
  }

  lemma FloatMoveAgreement(i: Inst, s: Regs)
    requires i.op == FMOV && |i.operands| >= 2 && FloatMoveAgrees(i.operands[0], i.operands[1])
    requires !(PlainGpr(i.operands[0]) && IsZero(i.operands[0].reg))
    ensures SameRegs(i, s)
  {
    hide GetReg, SetReg, DataEffect, Apply, FloatMoveRegs, FloatMoveAgrees;
    FloatMoveForm(i.operands[0], i.operands[1]);
    FloatMoveEffect(i, s);
    FloatMoveValue(i.operands[0], i.operands[1], s);
  }

  lemma FloatMoveForm(rd: Operand, rn: Operand)
    requires FloatMoveAgrees(rd, rn) && !(PlainGpr(rd) && IsZero(rd.reg))
    ensures (PlainGpr(rd) || PlainVec(rd)) && (PlainGpr(rn) || PlainVec(rn)) && (PlainVec(rd) || PlainVec(rn))
  {
  }

  lemma FloatMoveEffect(i: Inst, s: Regs)
    requires i.op == FMOV && |i.operands| >= 2
    requires (i.operands[0].RegOp? || i.operands[0].QualReg?) && (i.operands[1].RegOp? || i.operands[1].QualReg?)
    ensures Apply(DataEffect(i, s), s) == SetReg(i.operands[0].reg, GetReg(i.operands[1].reg, s), s)
  {
    hide GetReg, SetReg;
  }

  lemma FloatMoveValue(rd: Operand, rn: Operand, s: Regs)
    requires FloatMoveAgrees(rd, rn) && !(PlainGpr(rd) && IsZero(rd.reg))
    ensures FloatMoveRegs(rd.reg, rn.reg, s) == SetReg(rd.reg, GetReg(rn.reg, s), s)
  {
    FloatMoveForm(rd, rn);
    FloatMoveWord(rd, rn, s);
    hide GetReg, FloatMoveAgrees, VecView.Modulus;
  }

  /** What the move copies is what the interpreter reads, as far as the destination can tell. */
  lemma FloatMoveWord(rd: Operand, rn: Operand, s: Regs)
    requires FloatMoveAgrees(rd, rn) && !(PlainGpr(rd) && IsZero(rd.reg))
    ensures var x := if rn.reg.Vec? then s.v[rn.reg.vn].lo else RawRead(rn.reg, s);
            var y := GetReg(rn.reg, s);
            && (rd.reg.Vec? ==> x == y % rd.reg.view.Modulus())
            && (rd.reg.W? ==> x % TWO32 == y % TWO32)
            && (rd.reg.X? || rd.reg.SP? ==> x == y)
  {
    hide SetReg;
  }

  lemma PageAgrees(i: Inst, s: Regs)
    requires i.op == ADRP && |i.operands| >= 2 && i.operands[0].RegOp? && Gpr(i.operands[0].reg)
    requires i.operands[1].Label? && i.operands[1].imm.ToU64() % 0x1000 == 0
    ensures SameRegs(i, s)
  {
    hide SetReg;
  }

  lemma ThreadReadAgrees(i: Inst, s: Regs)
    requires i.op == MRS && |i.operands| >= 2 && PlainGpr(i.operands[0]) && i.operands[1] == SysReg(TpidrEl0)
    ensures SameRegs(i, s)
  {
    hide SetReg;
  }

  lemma ThreadWriteAgrees(i: Inst, s: Regs)
    requires i.op == MSR && DataInFragment(i)
    ensures SameRegs(i, s)
  {
    hide SetReg, GetReg;
    if EmitsCode(i) {
      GprValue(i.operands[1], s);
    }
  }

  lemma DataAgrees(i: Inst, s: Regs)
    requires InFragment(i) && IsData(i.op)
    ensures DataForm(i) && SameRegs(i, s)
  {
    hide SameRegs, VectorForm, ArithAgrees, AmountAgrees, SourceAgrees, AddsNoBit, FloatMoveAgrees, OpReg, EmitsCode;
    if i.op == MSR {
      ThreadWriteAgrees(i, s);
    } else if i.op == NOP {
      NopAgrees(i, s);
    } else if Idle(i.operands) {
      IdleAgrees(i, s);
    } else if PlainGpr(i.operands[0]) && IsZero(i.operands[0].reg) {
      ZeroDestAgrees(i, s);
    } else if i.op == FMOV {
      FloatMoveAgreement(i, s);
    } else if i.op == ADRP {
      PageAgrees(i, s);
    } else if i.op == MRS {
      ThreadReadAgrees(i, s);
    } else if i.op in {ADD, SUB, AND, EOR} {
      BinaryAgrees(i, s);
    } else if i.op in {LSL, LSR, ASR} {
      ShiftAgreement(i, s);
    } else {
      MoveAgrees(i, s);
    }
  }

  lemma NopAgrees(i: Inst, s: Regs)
    requires i.op == NOP
    ensures SameRegs(i, s)
  {
  }

  // ---------- simulation of one instruction ----------

  /** Code for a data instruction takes the image to the interpreter's registers. */
  predicate DataSim(fp: Fp, code: seq<Ir>, i: Inst, pc: uint64, raw: RawContext, im: Image)
    requires pc + 4 < TWO64 && IsData(i.op)
  {
    Emits(fp, code, i, pc, raw, im, Apply(DataEffect(i, im.regs), im.regs))
  }

  /** Code for a branch leaves the interpreter's registers and returns the interpreter's next pc. */
  predicate BranchSim(fp: Fp, code: seq<Ir>, i: Inst, pc: uint64, raw: RawContext, im: Image)
    requires pc + 4 < TWO64
  {
    var t := Translate(code, i, pc);
    var j := Control(i, im.regs, pc);
    && t.kind.EndsBlock?
    && Holds(fp, t.code, raw, im.(regs := j.regs))
    && t.kind.ret < |t.code| && ValueOf(fp, t.code, raw, t.kind.ret) == j.next
  }

  lemma JumpSim(fp: Fp, code: seq<Ir>, i: Inst, pc: uint64, raw: RawContext, im: Image)
    requires pc + 4 < TWO64 && Holds(fp, code, raw, im) && InFragment(i) && i.op in {B, BL, RET}
    ensures BranchSim(fp, code, i, pc, raw, im)
  {
    hide RunIr, Layout, LoadReg, StoreReg, EvalShift;
    var ops := i.operands;
    match i.op {
      case B =>
        PushSim(fp, code, Iconst(LabelOr(ops, 0, pc + 4)), raw, im);
      case BL =>
        PushSim(fp, code, Iconst(pc + 4), raw, im);
        var lr := Push(code, Iconst(pc + 4));
        StoreRegSim(fp, lr.code, X(30), lr.val, raw, im);
        var im' := im.(regs := SetReg(X(30), pc + 4, im.regs));
        PushSim(fp, StoreReg(lr.code, X(30), lr.val), Iconst(LabelOr(ops, 0, pc + 4)), raw, im');
      case RET =>
        LoadRegSim(fp, code, X(30), raw, im);
    }
  }

  function ZeroTest(test: Op, v: nat, zero: nat): Ir {
    if test == CBZ then IcmpEq(v, zero) else IcmpNe(v, zero)
  }

  lemma TestSim(fp: Fp, code: seq<Ir>, test: Op, v: nat, raw: RawContext, im: Image)
    requires Holds(fp, code, raw, im) && v < |code|
    ensures var zero := Push(code, Iconst(0));
            var e := Push(zero.code, ZeroTest(test, v, zero.val));
            && Holds(fp, e.code, raw, im) && e.val < |e.code|
            && (ValueOf(fp, e.code, raw, e.val) != 0 <==> ((ValueOf(fp, code, raw, v) == 0) == (test == CBZ)))
  {
    hide RunIr, Layout;
    ConstSim(fp, code, 0, raw, im);
    var zero := Push(code, Iconst(0));
    CarrySim(fp, code, zero.code, raw, v);
    PushSim(fp, zero.code, ZeroTest(test, v, zero.val), raw, im);
  }

  /** The compare-and-select tail of a zero branch, on a tested value already loaded at `v`. */
  lemma SelectSim(fp: Fp, code: seq<Ir>, test: Op, v: nat, target: uint64, next: uint64, raw: RawContext, im: Image)
    requires Holds(fp, code, raw, im) && v < |code|
    ensures var zero := Push(code, Iconst(0));
            var cond := Push(zero.code, ZeroTest(test, v, zero.val));
            var taken := Push(cond.code, Iconst(target));
            var through := Push(taken.code, Iconst(next));
            var pc := Push(through.code, Select(cond.val, taken.val, through.val));
            && Holds(fp, pc.code, raw, im) && pc.val < |pc.code|
            && ValueOf(fp, pc.code, raw, pc.val) ==
               if (ValueOf(fp, code, raw, v) == 0) == (test == CBZ) then target else next
  {
    hide RunIr, Layout, Extends, Holds;
    TestSim(fp, code, test, v, raw, im);
    var cond := Push(Push(code, Iconst(0)).code, ZeroTest(test, v, |code|));
    ConstSim(fp, cond.code, target, raw, im);
    var taken := Push(cond.code, Iconst(target));
    CarrySim(fp, cond.code, taken.code, raw, cond.val);
    ConstSim(fp, taken.code, next, raw, im);
    var through := Push(taken.code, Iconst(next));
    CarrySim(fp, taken.code, through.code, raw, cond.val);
    CarrySim(fp, taken.code, through.code, raw, taken.val);
    PushSim(fp, through.code, Select(cond.val, taken.val, through.val), raw, im);
  }

  lemma ZeroBranchSim(fp: Fp, code: seq<Ir>, i: Inst, pc: uint64, raw: RawContext, im: Image)
    requires pc + 4 < TWO64 && Holds(fp, code, raw, im) && InFragment(i) && i.op in {CBZ, CBNZ}
    ensures BranchSim(fp, code, i, pc, raw, im)
  {
    hide RunIr, Layout, LoadReg, EvalShift, Push, Extends;
    var ops := i.operands;
    LoadRegSim(fp, code, ops[0].reg, raw, im);
    var t := LoadReg(code, ops[0].reg);
    SelectSim(fp, t.code, i.op, t.val, ops[1].imm.ToU64(), pc + 4, raw, im);
  }

  /**
   One instruction of the agreeing fragment: running its generated code on the raw context has exactly
   the interpreter's effect on the registers and, for a branch, on the pc.
   */
  lemma InstructionSim(fp: Fp, code: seq<Ir>, i: Inst, pc: uint64, raw: RawContext, im: Image)
    requires pc + 4 < TWO64 && Holds(fp, code, raw, im) && InFragment(i)
    ensures IsData(i.op) ==> DataSim(fp, code, i, pc, raw, im)
    ensures !IsData(i.op) ==> IsControl(i.op) && BranchSim(fp, code, i, pc, raw, im)
  {
    hide DataEffect, Apply, Control, InFragment, JitRegs, EmitsCode, DataForm, Translate, RunIr, Layout;
    FragmentOps(i);
    if IsData(i.op) {
      DataAgrees(i, im.regs);
      DataCode(fp, code, i, pc, raw, im);
    } else if i.op in {B, BL, RET} {
      JumpSim(fp, code, i, pc, raw, im);
    } else {
      ZeroBranchSim(fp, code, i, pc, raw, im);
    }
  }

  lemma FragmentOps(i: Inst)
    requires InFragment(i)
    ensures IsData(i.op) || i.op in {B, BL, RET, CBZ, CBNZ}
    ensures !IsData(i.op) ==> IsControl(i.op)
  {
  }
}
