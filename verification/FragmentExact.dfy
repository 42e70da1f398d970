/** The agreeing fragment is not too small: on the forms that the instruction set has, it is exact. */
module FragmentExact {
  import opened Words
  import opened Machine
  import opened Alu
  import opened ContextLayout
  import opened Ir
  import opened Translator
  import opened GeneratedCode
  import opened Fragment

  /** Generated code and interpreter make the same registers from every register file. */
  ghost predicate AlwaysSame(i: Inst)
    requires DataForm(i) && IsData(i.op)
  {
    forall s: Regs :: SameRegs(i, s)
  }

  // ---------- the forms of the instruction set ----------

  predicate Plain(o: Operand) { o.RegOp? || o.QualReg? }

  /** A numbered register or a zero register, of either width. */
  predicate DataReg(r: Reg) { r.X? || r.W? || IsZero(r) }

  /** The width of a register's name. */
  function NameWidth(r: Reg): Width { if IsNarrow(r) then W32 else W64 }

  predicate NamesData(o: Operand) { OperandReg(o).Some? ==> DataReg(OperandReg(o).value) }

  predicate PlainData(o: Operand, w: Width) { Plain(o) && DataReg(o.reg) && o.reg.Width() == w }

  /** The second source of a logical operation: a register of its width, shifted or not, or no register. */
  predicate LogicalSource(o: Operand, w: Width) {
    OperandReg(o).Some? ==>
      && DataReg(OperandReg(o).value) && OperandReg(o).value.Width() == w
      && (o.ShiftReg? ==> o.shift.Lsl? || o.shift.Lsr? || o.shift.Asr? || o.shift.Ror?)
  }

  /** The sources that go with a named destination. */
  predicate SourcesForm(op: Op, rd: Reg, ops: seq<Operand>)
    requires |ops| >= 1
  {
    var w := NameWidth(rd);
    match op
    case MOV => |ops| >= 2 && (ops[1].ShiftReg? ==> Gpr(ops[1].reg))
    case ADD => |ops| >= 3 && (rd.Vec? || (Plain(ops[1]) && !ops[1].reg.Vec? && NamesData(ops[2])))
    case SUB => |ops| >= 3 && (rd.Vec? || (Plain(ops[1]) && !ops[1].reg.Vec? && NamesData(ops[2])))
    case AND => |ops| >= 3 && PlainData(ops[1], w) && LogicalSource(ops[2], w)
    case EOR => |ops| >= 3 && PlainData(ops[1], w) && LogicalSource(ops[2], w)
    case ORR => |ops| >= 3 && PlainData(ops[1], w) && LogicalSource(ops[2], w)
    case ADRP => |ops| >= 2 && ops[0].RegOp?
    case MRS => |ops| >= 2
    case FMOV => |ops| >= 2 && !rd.WSP? && (OperandReg(ops[1]).Some? ==> Plain(ops[1]) && (rd.Vec? || ops[1].reg.Vec?))
    case _ => |ops| == 3 && DataReg(rd) && PlainData(ops[1], w) && (OperandReg(ops[2]).Some? ==> Plain(ops[2]) && DataReg(ops[2].reg))
  }

  /**
   The data instructions of the compiler's list as the instruction set has them, where the interpreter's own
   integer arms run them: every destination (WSP, zero registers, vector names of SUB and FMOV included),
   shifted and extended registers, immediates, shifts by register and by constant, any system register, and
   what the compiler skips for want of a register operand.
   */
  predicate Form(i: Inst) {
    var ops := i.operands;
    DataForm(i) && !VectorForm(i) &&
    if i.op == NOP then true
    else if i.op == MSR then
      |ops| >= 2 && (OperandReg(ops[1]).Some? ==> Plain(ops[1]) && (DataReg(ops[1].reg) || ops[1].reg.SP?))
    else |ops| >= 1 && (OpReg(ops[0]).None? || (Plain(ops[0]) && SourcesForm(i.op, ops[0].reg, ops)))
  }

  // ---------- witnesses ----------

  function Blank(): Regs {
    RegFile(seq(31, _ => 0), 0, 0, 0, seq(32, _ => VecReg(0, 0)), 0)
  }

  /** All registers zero but one. */
  function Only(r: Reg, v: uint64): Regs { SetReg(r, v, Blank()) }

  /** All registers zero but two, which hold one value. */
  function Both(r: Reg, q: Reg, v: uint64): Regs { SetReg(q, v, Only(r, v)) }

  function OnlyVec(n: VecIndex, lo: uint64, hi: uint64): Regs {
    var s := Blank();
    s.(v := s.v[n := VecReg(lo, hi)])
  }

  lemma OnlyReads(r: Reg, v: uint64, q: Reg)
    requires Gpr(r) && Gpr(q) && v < r.Width().Modulus() && (IsZero(r) ==> v == 0)
    ensures GetReg(r, Only(r, v)) == v
    ensures q != r && q.Width() == r.Width() ==> GetReg(q, Only(r, v)) == 0
  {
  }

  lemma BothRead(r: Reg, q: Reg, v: uint64)
    requires DataReg(r) && DataReg(q) && !IsZero(r) && !IsZero(q) && v < TWO32
    ensures GetReg(r, Both(r, q, v)) == v && GetReg(q, Both(r, q, v)) == v
  {
  }

  lemma DestShows(r: Reg, x: uint64, y: uint64, s: Regs)
    requires Gpr(r) && !IsZero(r) && SetReg(r, x, s) == SetReg(r, y, s)
    ensures x % r.Width().Modulus() == y % r.Width().Modulus()
  {
    if r.X? {
      assert s.x[r.n := x][r.n] == s.x[r.n := y][r.n];
    } else if r.W? {
      assert s.x[r.n := x % TWO32][r.n] == s.x[r.n := y % TWO32][r.n];
    }
  }

  lemma VecDestShows(n: VecIndex, x: uint64, y: uint64, s: Regs)
    requires x != y
    ensures s.(v := s.v[n := VecReg(x, 0)]) != s.(v := s.v[n := VecReg(y, 0)])
  {
    assert s.v[n := VecReg(x, 0)][n] != s.v[n := VecReg(y, 0)][n];
  }

  // ---------- parity: what an odd value and an even one show ----------

  lemma ParityShows(x: nat, y: nat, w: Width)
    requires x % 2 != y % 2
    ensures x % w.Modulus() != y % w.Modulus()
  {
    ModParity(x, w);
    ModParity(y, w);
  }

  lemma ModParity(x: nat, w: Width)
    ensures x % w.Modulus() % 2 == x % 2
  {
    DivDiv(x, 2, w.Half());
    ModAddMultiple(x % 2, x / 2 % w.Half(), 2);
  }

  lemma PowBig(k: nat)
    requires k > 0
    ensures Pow2(k) >= 2 && Pow2(k) % 2 == 0 && 1 / Pow2(k) == 0 && 1 % Pow2(k) == 1
  {
    hide Pow2;
    PowStep(k);
    DivModUnique(2 * Pow2(k - 1), 2, Pow2(k - 1), 0);
    DivModUnique(1, Pow2(k), 0, 1);
  }

  /** Shifting or rotating 1 by a positive amount leaves an even number; leftward, a positive one. */
  lemma OneShifted(k: nat, w: Width)
    requires 0 < k < w.Bits()
    ensures ShiftLeft(1, k, w) == Pow2(k) < w.Modulus() && ShiftRight(1, k) == 0
    ensures ShiftRightArith(1, k, w) == 0 && RotateRight(1, k, w) == Pow2(w.Bits() - k) < w.Modulus()
    ensures Pow2(k) >= 2 && Pow2(k) % 2 == 0 && Pow2(w.Bits() - k) >= 2 && Pow2(w.Bits() - k) % 2 == 0
  {
    hide Pow2;
    PowBig(k);
    PowBig(w.Bits() - k);
    Pow2Monotone(k, w.Bits());
    Pow2Monotone(w.Bits() - k, w.Bits());
    WidthPowers(w);
    OneTimes(Pow2(k), w.Modulus());
    OneTimes(Pow2(w.Bits() - k), w.Modulus());
  }

  lemma OneTimes(p: nat, m: nat)
    requires 0 < p < m
    ensures 1 * p == p && p % m == p
  {
  }

  lemma EvenShifts(k: nat, w: Width)
    requires 0 < k < w.Bits()
    ensures ShiftLeft(1, k, w) % 2 == 0 && ShiftRight(1, k) % 2 == 0
    ensures ShiftRightArith(1, k, w) % 2 == 0 && RotateRight(1, k, w) % 2 == 0
  {
    hide ShiftLeft, ShiftRight, ShiftRightArith, RotateRight, Pow2;
    OneShifted(k, w);
  }

  // ---------- sources ----------

  /** A register value of which a shift that is not neutral changes the low bits. */
  lemma ShiftShows(r: Reg, sh: Shift, w: Width) returns (v: uint64)
    requires Gpr(r) && !NeutralShift(r, sh, w)
    ensures v < r.Width().Modulus() && (IsZero(r) ==> v == 0)
    ensures EvalShift(v, r.Width(), sh) % w.Modulus() != v % w.Modulus()
  {
    hide ShiftLeft, ShiftRight, ShiftRightArith, RotateRight, SignExtend, Or64, Pow2;
    var wr := r.Width();
    var k, k64 := sh.amt % wr.Bits(), sh.amt % 64;
    if sh.Msl? {
      MaskShows(k64);
      v := 0;
      ParityShows(EvalShift(v, wr, sh), v, w);
    } else if (sh.Lsl? || sh.Lsr? || sh.Asr? || sh.Ror?) || k64 > 0 {
      v := 1;
      if sh.Lsl? || sh.Lsr? || sh.Asr? || sh.Ror? {
        EvenShifts(k, wr);
      } else {
        EvenShifts(k64, W64);
        ExtendShows();
      }
      ParityShows(EvalShift(v, wr, sh), v, w);
    } else {
      v := ExtensionWitness(r, sh);
      ExtensionShows(r, sh, w);
    }
  }

  function ExtensionWitness(r: Reg, sh: Shift): uint64 {
    if sh.Uxtb? || sh.Sxtb? then 0x100
    else if sh.Uxth? || sh.Sxth? then 0x1_0000
    else if r.IsW() then TWO31 else TWO32
  }

  lemma ExtensionShows(r: Reg, sh: Shift, w: Width)
    requires Gpr(r) && !IsZero(r) && !NeutralShift(r, sh, w) && sh.amt % 64 == 0
    requires !(sh.Lsl? || sh.Lsr? || sh.Asr? || sh.Ror? || sh.Msl?)
    ensures var v := ExtensionWitness(r, sh);
            v < r.Width().Modulus() && EvalShift(v, r.Width(), sh) % w.Modulus() != v % w.Modulus()
  {
    hide ShiftLeft, ShiftRight, ShiftRightArith, RotateRight, SignExtend, Or64, Pow2;
    ExtendShows();
    ShiftByNothing(0, W64);
    ShiftByNothing(SignExtend(TWO31, 32), W64);
  }

  lemma ExtendShows()
    ensures SignExtend(1, 8) == 1 && SignExtend(1, 16) == 1 && SignExtend(1, 32) == 1
    ensures SignExtend(0x100, 8) == 0 && SignExtend(0x1_0000, 16) == 0 && SignExtend(TWO32, 32) == 0
    ensures SignExtend(TWO31, 32) != TWO31
  {
    Pow2Widths();
    assert Pow2(7) == 128 && Pow2(15) == 0x8000;
  }

  /** The bits that an MSL shift sets below. */
  lemma MaskShows(k: nat)
    requires 0 < k < 64
    ensures 0 < Pow2(k) <= TWO64 && Or64(ShiftLeft(0, k, W64), Pow2(k) - 1) % 2 == 1
  {
    hide Pow2, ShiftLeft, Or;
    PowBig(k);
    Pow2Monotone(k, 64);
    WidthPowers(W64);
    ShiftOfZero(k, W64);
    OrNothing(Pow2(k) - 1);
    OddBelow(Pow2(k));
  }

  lemma OddBelow(p: nat)
    requires p > 0 && p % 2 == 0
    ensures (p - 1) % 2 == 1
  {
  }

  /** A source that does not agree shows different low bits on some register file. */
  lemma SourceShows(o: Operand, labels: bool, w: Width) returns (s: Regs)
    requires (o.ShiftReg? ==> Gpr(o.reg)) && !SourceAgrees(o, labels, w)
    ensures JitValue(o, labels, s) % w.Modulus() != OperandVal(o, s) % w.Modulus()
  {
    hide EvalShift, EvalImmShift, NeutralShift, Blank, OnlyVec, Only;
    if o.ShiftReg? {
      var v := ShiftShows(o.reg, o.shift, w);
      s := Only(o.reg, v);
      OnlyReads(o.reg, v, o.reg);
    } else if Plain(o) {
      s := if o.reg.WSP? then Blank().(sp := 1) else OnlyVec(o.reg.vn, 1, 0);
      OddRegister(o, labels, s);
    } else {
      s := Blank();
      ConstantValue(o, labels, s);
    }
  }

  /** WSP and vector names: the engines read 1 and 0, or 0 and 1. */
  lemma OddRegister(o: Operand, labels: bool, s: Regs)
    requires Plain(o) && !Gpr(o.reg) && s == if o.reg.WSP? then Blank().(sp := 1) else OnlyVec(o.reg.vn, 1, 0)
    ensures JitValue(o, labels, s) == (if o.reg.WSP? then 1 else 0) && OperandVal(o, s) == (if o.reg.WSP? then 0 else 1)
  {
  }

  // ---------- destinations ----------

  /** What generated code leaves in a named destination. */
  lemma JitWrites(i: Inst, s: Regs)
    requires DataForm(i) && EmitsCode(i) && i.op !in {MSR, FMOV, NOP} && Plain(i.operands[0])
    ensures JitRegs(i, s) == RawWrite(i.operands[0].reg, JitResult(i, s), s)
  {
    hide BinaryValue, RawRead, SourceAt, RawWrite;
  }

  function JitResult(i: Inst, s: Regs): uint64
    requires DataForm(i) && EmitsCode(i)
  {
    var ops := i.operands;
    if IsBinary(i.op) then BinaryValue(i.op, RawRead(RegAt(ops, 1).value, s), SourceAt(ops, 2, i.op in {ADD, SUB}, s))
    else match i.op
      case MOV => SourceAt(ops, 1, true, s)
      case ORR => SourceAt(ops, 1, true, s)
      case ADRP => ops[1].imm.ToU64()
      case _ => s.tpidr
  }

  /** WSP as destination: the compiler writes the stack pointer, the interpreter writes nothing. */
  lemma StackDestShows(i: Inst) returns (s: Regs)
    requires DataForm(i) && EmitsCode(i) && i.op !in {MSR, FMOV, NOP} && Plain(i.operands[0]) && i.operands[0].reg.WSP?
    ensures IsData(i.op) && !SameRegs(i, s)
  {
    s := Blank().(sp := TWO32);
    JitWrites(i, s);
    WritesTarget(i, s);
    hide JitRegs, DataEffect, JitResult;
  }

  /** A vector register as destination: the compiler writes nothing, the interpreter clears the high half. */
  lemma VectorDestShows(i: Inst) returns (s: Regs)
    requires DataForm(i) && i.op in {SUB, ADRP, MRS} && WritesResult(i)
    requires Plain(i.operands[0]) && i.operands[0].reg.Vec?
    ensures !SameRegs(i, s)
  {
    s := OnlyVec(i.operands[0].reg.vn, 0, 1);
    VectorDestJit(i, s);
    WritesTarget(i, s);
    ResultWritten(i, s);
    hide JitRegs, DataEffect;
    assert s.v[i.operands[0].reg.vn].hi == 1;
  }

  lemma VectorDestJit(i: Inst, s: Regs)
    requires DataForm(i) && i.op in {SUB, ADRP, MRS} && |i.operands| >= 1
    requires Plain(i.operands[0]) && i.operands[0].reg.Vec?
    ensures JitRegs(i, s) == s
  {
    hide BinaryValue, RawRead, SourceAt;
  }

  predicate WritesResult(i: Inst) {
    |i.operands| >= 2 && (i.op == ADRP ==> i.operands[0].RegOp?)
  }

  lemma ResultWritten(i: Inst, s: Regs)
    requires i.op in {SUB, ADRP, MRS} && WritesResult(i) && Plain(i.operands[0])
    ensures DataEffect(i, s).write.Some?
  {
    hide OperandVal, SubFlags, OperandWidth;
  }

  // ---------- arithmetic ----------

  lemma ArithShows(i: Inst) returns (s: Regs)
    requires Form(i) && i.op in {ADD, SUB, EOR} && !InFragment(i)
    ensures !SameRegs(i, s)
  {
    hide SourceAgrees, EmitsCode;
    var rd, ops := i.operands[0].reg, i.operands;
    if rd.Vec? {
      s := VectorDestShows(i);
    } else if rd.WSP? {
      ThreeOperands(i);
      s := StackDestShows(i);
    } else if ops[1].reg.WSP? {
      s := StackSourceShows(i);
    } else {
      s := SecondShows(i);
    }
  }

  lemma ThreeOperands(i: Inst)
    requires IsBinary(i.op) && |i.operands| >= 3
    requires Plain(i.operands[0]) && Plain(i.operands[1])
    ensures EmitsCode(i)
  {
  }

  /** A general first source: the results differ where the second sources do. */
  lemma SecondShows(i: Inst) returns (s: Regs)
    requires i.op in {ADD, SUB, EOR} && |i.operands| >= 3 && PlainGpr(i.operands[0]) && PlainGpr(i.operands[1])
    requires !IsZero(i.operands[0].reg) && (i.operands[2].ShiftReg? ==> Gpr(i.operands[2].reg))
    requires !SourceAgrees(i.operands[2], i.op in {ADD, SUB}, i.operands[0].reg.Width())
    ensures !SameRegs(i, s)
  {
    hide OperandVal, JitValue, SourceAgrees, GetReg, SetReg, DataEffect, Apply, BinaryValue, JitRegs, RawRead;
    var rd, ops := i.operands[0].reg, i.operands;
    var labels := i.op in {ADD, SUB};
    s := SourceShows(ops[2], labels, rd.Width());
    var x, y := JitValue(ops[2], labels, s), OperandVal(ops[2], s);
    BinaryEffect(i, s);
    BinaryJit(i, s);
    GprValue(ops[1], s);
    if SameRegs(i, s) {
      var a := GetReg(ops[1].reg, s);
      DestShows(rd, BinaryValue(i.op, a, x), BinaryValue(i.op, a, y), s);
      Cancel(i.op, a, x, y, rd.Width());
    }
  }

  lemma Cancel(op: Op, a: uint64, x: uint64, y: uint64, w: Width)
    requires op in {ADD, SUB, EOR} && BinaryValue(op, a, x) % w.Modulus() == BinaryValue(op, a, y) % w.Modulus()
    ensures x % w.Modulus() == y % w.Modulus()
  {
    hide Xor, Pow2, Wrap64;
    var m := w.Modulus();
    if op == EOR {
      WidthPowers(w);
      XorLow(a, x, w.Bits());
      XorLow(a, y, w.Bits());
      XorCancel(a % m, x % m, y % m);
    } else if op == ADD {
      WrapMod(a + x, w);
      WrapMod(a + y, w);
      CancelSum(a, x, y, m);
    } else {
      WrapMod(a - x, w);
      WrapMod(a - y, w);
      CancelDifference(a, x, y, m);
    }
  }

  lemma CancelSum(a: int, x: int, y: int, m: int)
    requires m > 0 && (a + x) % m == (a + y) % m
    ensures x % m == y % m
  {
    SumCongruent(0 - a, a + x, a + y, m);
    assert 0 - a + (a + x) == x && 0 - a + (a + y) == y;
  }

  lemma CancelDifference(a: int, x: int, y: int, m: int)
    requires m > 0 && (a - x) % m == (a - y) % m
    ensures x % m == y % m
  {
    SumCongruent(a, a - x, a - y, m);
    assert a - (a - x) == x && a - (a - y) == y;
  }

  /** WSP as first source: the compiler reads the stack pointer, the interpreter reads 0. */
  lemma StackSourceShows(i: Inst) returns (s: Regs)
    requires i.op in {ADD, SUB} && |i.operands| >= 3 && PlainGpr(i.operands[0]) && !IsZero(i.operands[0].reg)
    requires Plain(i.operands[1]) && i.operands[1].reg.WSP? && NamesData(i.operands[2])
    ensures !SameRegs(i, s)
  {
    hide OperandVal, JitValue, SetReg, DataEffect, Apply, BinaryValue, JitRegs, NamesData;
    var rd, o := i.operands[0].reg, i.operands[2];
    var s0, s1 := Blank(), Blank().(sp := 1);
    StackUnread(o, s0, s1);
    BinaryEffect(i, s0);
    BinaryEffect(i, s1);
    BinaryJit(i, s0);
    BinaryJit(i, s1);
    StackRead(i.operands[1], s0);
    StackRead(i.operands[1], s1);
    s := s0;
    if SameRegs(i, s0) {
      s := s1;
      if SameRegs(i, s1) {
        var x, y := JitValue(o, true, s0), OperandVal(o, s0);
        DestShows(rd, BinaryValue(i.op, 0, x), BinaryValue(i.op, 0, y), s0);
        DestShows(rd, BinaryValue(i.op, 1, x), BinaryValue(i.op, 0, y), s1);
        OneMore(i.op, x, rd.Width());
      }
    }
  }

  lemma StackRead(o: Operand, s: Regs)
    requires Plain(o) && o.reg.WSP?
    ensures OperandVal(o, s) == 0 && RawRead(o.reg, s) == s.sp % TWO32
  {
  }

  lemma StackUnread(o: Operand, s: Regs, s': Regs)
    requires NamesData(o) && s' == s.(sp := s'.sp)
    ensures JitValue(o, true, s') == JitValue(o, true, s) && OperandVal(o, s') == OperandVal(o, s)
  {
    hide EvalShift, EvalImmShift;
  }

  lemma OneMore(op: Op, x: uint64, w: Width)
    requires op in {ADD, SUB}
    ensures BinaryValue(op, 0, x) % w.Modulus() != BinaryValue(op, 1, x) % w.Modulus()
  {
    var y: int := if op == ADD then x else 0 - x;
    WrapMod(y, w);
    WrapMod(y + 1, w);
    DifferBy(y, 1, w.Modulus());
  }

  lemma DifferBy(y: int, d: int, m: int)
    requires 0 < d < m
    ensures y % m != (y + d) % m
  {
    if y % m == (y + d) % m {
      ModDifference(y + d, y, m);
      MultipleBelow((y + d) / m - y / m, m);
    }
  }

  // ---------- logic ----------

  lemma AndShows(i: Inst) returns (s: Regs)
    requires Form(i) && i.op == AND && !InFragment(i)
    ensures !SameRegs(i, s)
  {
    hide SourceAgrees, EmitsCode;
    assert EmitsCode(i) by { ThreeOperands(i); }
    if i.operands[0].reg.WSP? {
      s := StackDestShows(i);
    } else if OperandReg(i.operands[2]).Some? {
      s := AndRegisterShows(i);
    } else {
      s := AndConstantShows(i);
    }
  }

  predicate LogicForm(i: Inst) {
    && |i.operands| >= 3 && PlainGpr(i.operands[0]) && !IsZero(i.operands[0].reg)
    && PlainData(i.operands[1], i.operands[0].reg.Width()) && LogicalSource(i.operands[2], i.operands[0].reg.Width())
  }

  /** All ones against the two constants. */
  lemma AndConstantShows(i: Inst) returns (s: Regs)
    requires LogicForm(i) && i.op == AND && !IsZero(i.operands[1].reg) && OperandReg(i.operands[2]).None?
    requires !SourceAgrees(i.operands[2], false, i.operands[0].reg.Width())
    ensures !SameRegs(i, s)
  {
    hide OperandVal, JitValue, SetReg, DataEffect, Apply, BinaryValue, JitRegs, GetReg, RawRead, ConstantOf, JitConstant, Only;
    var rd, rn, o := i.operands[0].reg, i.operands[1].reg, i.operands[2];
    var w := rd.Width();
    var ones := w.Modulus() - 1;
    s := Only(rn, ones);
    OnlyReads(rn, ones, rn);
    BinaryEffect(i, s);
    BinaryJit(i, s);
    GprValue(i.operands[1], s);
    ConstantValue(o, false, s);
    if SameRegs(i, s) {
      DestShows(rd, BinaryValue(AND, ones, JitConstant(o, false)), BinaryValue(AND, ones, ConstantOf(o)), s);
      AndAll(JitConstant(o, false), w);
      AndAll(ConstantOf(o), w);
    }
  }

  lemma AndAll(x: uint64, w: Width)
    ensures BinaryValue(AND, w.Modulus() - 1, x) % w.Modulus() == x % w.Modulus()
  {
    hide And, Pow2;
    WidthPowers(w);
    AndOnes(x, w.Bits());
    DivModUnique(x % w.Modulus(), w.Modulus(), 0, x % w.Modulus());
  }

  /** Ones in both registers, of which the interpreter moves the second away. */
  lemma AndRegisterShows(i: Inst) returns (s: Regs)
    requires LogicForm(i) && i.op == AND && !IsZero(i.operands[1].reg) && OperandReg(i.operands[2]).Some?
    requires !SourceAgrees(i.operands[2], false, i.operands[0].reg.Width())
    ensures !SameRegs(i, s)
  {
    hide OperandVal, JitValue, SetReg, DataEffect, Apply, BinaryValue, JitRegs, GetReg, RawRead, Both;
    var rd, rn, o := i.operands[0].reg, i.operands[1].reg, i.operands[2];
    var rm, w := OperandReg(o).value, rd.Width();
    s := Both(rn, rm, 1);
    BothRead(rn, rm, 1);
    BinaryEffect(i, s);
    BinaryJit(i, s);
    GprValue(i.operands[1], s);
    ShiftedOne(o, w, s);
    if SameRegs(i, s) {
      var y := OperandVal(o, s);
      DestShows(rd, BinaryValue(AND, 1, 1), BinaryValue(AND, 1, y), s);
      AndParity(1);
      AndParity(y);
      ParityShows(BinaryValue(AND, 1, 1), BinaryValue(AND, 1, y), w);
    }
  }

  lemma AndParity(y: uint64)
    ensures BinaryValue(AND, 1, y) % 2 == y % 2
  {
    AndParts(1, y);
    hide And;
  }

  /** The shifted 1 of a logical source that does not agree. */
  lemma ShiftedOne(o: Operand, w: Width, s: Regs)
    requires OperandReg(o).Some? && LogicalSource(o, w) && !SourceAgrees(o, false, w)
    requires GetReg(OperandReg(o).value, s) == 1
    ensures JitValue(o, false, s) == 1 && OperandVal(o, s) % 2 == 0
  {
    hide ShiftLeft, ShiftRight, ShiftRightArith, RotateRight, Pow2, GetReg;
    EvenShifts(o.shift.amt % w.Bits(), w);
  }

  lemma OrShows(i: Inst) returns (s: Regs)
    requires Form(i) && i.op == ORR && !InFragment(i)
    ensures !SameRegs(i, s)
  {
    hide AddsNoBit, EmitsCode;
    assert EmitsCode(i) by { MoveEmits(i); }
    if i.operands[0].reg.WSP? {
      s := StackDestShows(i);
    } else {
      s := OrSourceShows(i);
    }
  }

  lemma MoveEmits(i: Inst)
    requires i.op in {MOV, ORR} && |i.operands| >= 2 && Plain(i.operands[0])
    ensures EmitsCode(i)
  {
  }

  lemma OrSourceShows(i: Inst) returns (s: Regs)
    requires LogicForm(i) && i.op == ORR && !AddsNoBit(i.operands[1].reg, i.operands[2], i.operands[0].reg.Width())
    ensures !SameRegs(i, s)
  {
    hide OperandVal, JitValue, SetReg, DataEffect, Apply, JitRegs, GetReg, RawRead, Or64, AddsNoBit;
    var rd, rn, o := i.operands[0].reg, i.operands[1].reg, i.operands[2];
    var w := rd.Width();
    s := OrWitness(rn, o, w);
    MoveForm(i, s);
    PlainValue(i.operands[1], s);
    if SameRegs(i, s) {
      DestShows(rd, GetReg(rn, s), Or64(GetReg(rn, s), OperandVal(o, s)), s);
    }
  }

  lemma PlainValue(o: Operand, s: Regs)
    requires PlainGpr(o)
    ensures JitValue(o, true, s) == GetReg(o.reg, s) && OperandVal(o, s) == GetReg(o.reg, s)
  {
  }

  /** A register file on which the third operand adds a bit. */
  lemma OrWitness(rn: Reg, o: Operand, w: Width) returns (s: Regs)
    requires DataReg(rn) && rn.Width() == w && LogicalSource(o, w) && !AddsNoBit(rn, o, w)
    ensures Or64(GetReg(rn, s), OperandVal(o, s)) % w.Modulus() != GetReg(rn, s) % w.Modulus()
  {
    hide EvalShift, EvalImmShift, Or, Pow2, NeutralShift, GetReg, Only, Blank;
    if OperandReg(o).None? {
      s := Blank();
      ConstantValue(o, true, s);
      BlankReads(rn);
      OrNothing(ConstantOf(o));
    } else {
      NamedSource(rn, o, w);
      var rm := OperandReg(o).value;
      var v := if o.ShiftReg? && (o.shift.Lsr? || o.shift.Asr?) then w.Half() else 1;
      s := Only(rm, v);
      OnlyReads(rm, v, rn);
      OnlyReads(rm, v, rm);
      if !o.ShiftReg? {
        OrNothing(1);
      } else if rm == rn {
        AddedBit(rm, o.shift, v, w);
      } else {
        SomeBit(rm, o.shift, v, w);
        OrNothing(EvalShift(v, w, o.shift));
      }
    }
  }

  lemma BlankReads(r: Reg)
    requires DataReg(r)
    ensures GetReg(r, Blank()) == 0
  {
  }

  /** A named third operand that adds a bit is not a zero register; unshifted, it is not the second. */
  lemma NamedSource(rn: Reg, o: Operand, w: Width)
    requires OperandReg(o).Some? && LogicalSource(o, w) && !AddsNoBit(rn, o, w)
    ensures !IsZero(OperandReg(o).value) && (!o.ShiftReg? ==> OperandReg(o).value != rn)
    ensures o.ShiftReg? && o.reg == rn ==> !NeutralShift(o.reg, o.shift, w)
  {
  }

  /** Shifting the top bit right leaves a lower bit; with sign, bits above and at it. */
  lemma TopShifted(k: nat, w: Width)
    requires 0 < k < w.Bits()
    ensures 0 < ShiftRight(w.Half(), k) < w.Half()
    ensures w.Half() < ShiftRightArith(w.Half(), k, w) < w.Modulus()
  {
    hide Pow2;
    var p, q := Pow2(k), Pow2(w.Bits() - 1 - k);
    Pow2Add(k, w.Bits() - 1 - k);
    WidthPowers(w);
    PowBig(k);
    HalfQuotients(p, q, w);
  }

  lemma HalfQuotients(p: nat, q: nat, w: Width)
    requires p >= 2 && q >= 1 && p * q == w.Half()
    ensures w.Half() / p == q < w.Half() && (0 - w.Half()) / p == 0 - q
    ensures (0 - q) % w.Modulus() == w.Modulus() - q
  {
    DivModUnique(w.Half(), p, q, 0);
    assert (0 - q) * p == 0 - w.Half();
    DivModUnique(0 - w.Half(), p, 0 - q, 0);
    MulMonotone(2, p, q);
    DivModUnique(0 - q, w.Modulus(), -1, w.Modulus() - q);
  }

  lemma SomeBit(r: Reg, sh: Shift, v: uint64, w: Width)
    requires r.Width() == w && (sh.Lsl? || sh.Lsr? || sh.Asr? || sh.Ror?)
    requires v == if sh.Lsr? || sh.Asr? then w.Half() else 1
    ensures 0 < EvalShift(v, w, sh) < w.Modulus()
  {
    hide ShiftLeft, ShiftRight, ShiftRightArith, RotateRight, Pow2;
    var k := sh.amt % w.Bits();
    if k == 0 {
      ShiftByNothing(v, w);
    } else {
      OneShifted(k, w);
      TopShifted(k, w);
    }
  }

  lemma AddedBit(r: Reg, sh: Shift, v: uint64, w: Width)
    requires DataReg(r) && r.Width() == w && (sh.Lsl? || sh.Lsr? || sh.Asr? || sh.Ror?) && !NeutralShift(r, sh, w)
    requires v == if sh.Lsr? || sh.Asr? then w.Half() else 1
    ensures Or64(v, EvalShift(v, w, sh)) % w.Modulus() != v % w.Modulus()
  {
    hide ShiftLeft, ShiftRight, ShiftRightArith, RotateRight, Pow2, Or;
    var k, f := sh.amt % w.Bits(), EvalShift(v, w, sh);
    OneShifted(k, w);
    TopShifted(k, w);
    assert v % w.Modulus() == v && f < w.Modulus();
    assert if sh.Lsr? then 0 < f < v else f > v;
    hide EvalShift, NeutralShift;
    MoreBits(v, f, w);
  }

  lemma MoreBits(v: uint64, f: uint64, w: Width)
    requires v < w.Modulus() && f < w.Modulus() && (f > v || (v == w.Half() && 0 < f < v))
    ensures Or64(v, f) % w.Modulus() != v % w.Modulus()
  {
    hide Pow2, Or;
    WidthPowers(w);
    BitwiseBound(v, f, w.Bits());
    if f < v {
      OrApart(1, w.Bits() - 1, w.Half(), f);
    }
    DivModUnique(Or(v, f), w.Modulus(), 0, Or(v, f));
    DivModUnique(v, w.Modulus(), 0, v);
  }

  // ---------- moves ----------

  lemma MoveShows(i: Inst) returns (s: Regs)
    requires Form(i) && i.op == MOV && !InFragment(i)
    ensures !SameRegs(i, s)
  {
    hide OperandVal, JitValue, SourceAgrees, GetReg, SetReg, EmitsCode;
    var rd, o := i.operands[0].reg, i.operands[1];
    assert EmitsCode(i) by { MoveEmits(i); }
    if rd.WSP? {
      s := StackDestShows(i);
    } else {
      s := SourceShows(o, true, rd.Width());
      MoveForm(i, s);
      hide JitRegs, DataEffect;
      if SameRegs(i, s) {
        DestShows(rd, JitValue(o, true, s), OperandVal(o, s), s);
      }
    }
  }

  // ---------- shifts ----------

  lemma ShiftsShow(i: Inst) returns (s: Regs)
    requires Form(i) && i.op in {LSL, LSR, ASR} && !InFragment(i)
    ensures !SameRegs(i, s)
  {
    hide AmountAgrees;
    if OperandReg(i.operands[2]).Some? {
      s := RegisterShiftShows(i);
    } else {
      s := ConstantShiftShows(i);
    }
  }

  predicate ShiftInst(i: Inst) {
    && i.op in {LSL, LSR, ASR} && |i.operands| == 3 && PlainGpr(i.operands[0]) && DataReg(i.operands[0].reg)
    && !IsZero(i.operands[0].reg) && PlainData(i.operands[1], i.operands[0].reg.Width()) && !IsZero(i.operands[1].reg)
    && !AmountAgrees(i.op, i.operands[0].reg, i.operands[1].reg, i.operands[2])
  }

  /** Shifting 33 by 33: the compiler shifts it out of the word, the interpreter by one place. */
  lemma RegisterShiftShows(i: Inst) returns (s: Regs)
    requires ShiftInst(i) && Plain(i.operands[2]) && DataReg(i.operands[2].reg)
    ensures !SameRegs(i, s)
  {
    hide OperandVal, JitValue, SetReg, DataEffect, Apply, BinaryValue, JitRegs, GetReg, RawRead, ShiftValue, Both;
    var rd, rn, rm := i.operands[0].reg, i.operands[1].reg, i.operands[2].reg;
    NarrowByRegister(i);
    hide ShiftInst, AmountAgrees, PlainData;
    s := Both(rn, rm, 33);
    BothRead(rn, rm, 33);
    ShiftForm(i, s);
    BinaryJit(i, s);
    GprValue(i.operands[1], s);
    PlainValue(i.operands[2], s);
    LabelsUnused(i.operands[2], s);
    Shift33(i.op);
    if SameRegs(i, s) {
      DestShows(rd, BinaryValue(i.op, 33, 33), ShiftValue(i.op, 33, 1, W32), s);
    }
  }

  lemma NarrowByRegister(i: Inst)
    requires ShiftInst(i) && Plain(i.operands[2]) && DataReg(i.operands[2].reg)
    ensures i.op in {LSL, LSR, ASR} && |i.operands| == 3 && PlainGpr(i.operands[0]) && i.operands[0].reg.W?
    ensures PlainGpr(i.operands[1]) && DataReg(i.operands[1].reg) && !IsZero(i.operands[1].reg)
    ensures PlainGpr(i.operands[2]) && !IsZero(i.operands[2].reg)
  {
  }

  lemma LabelsUnused(o: Operand, s: Regs)
    requires OperandReg(o).Some?
    ensures JitValue(o, false, s) == JitValue(o, true, s)
  {
  }

  lemma Shift33(op: Op)
    requires op in {LSL, LSR, ASR}
    ensures BinaryValue(op, 33, 33) % TWO32 == 0
    ensures 0 < ShiftValue(op, 33, 1, W32) % TWO32
  {
    hide ShiftLeft, ShiftRight, ShiftRightArith, BinaryValue;
    ByAmount(op, 33, 33);
    if op == LSL {
      Left33();
    } else {
      Right33();
    }
  }

  lemma Left33()
    ensures ShiftLeft(33, 33, W64) % TWO32 == 0 && ShiftLeft(33, 1, W32) == 66
  {
    hide Pow2;
    Pow2Widths();
    PowStep(33);
    ModAddMultiple(0, 66, TWO32);
  }

  lemma Right33()
    ensures ShiftRight(33, 33) == 0 && ShiftRightArith(33, 33, W64) == 0
    ensures ShiftRight(33, 1) == 16 && ShiftRightArith(33, 1, W32) == 16
  {
    hide Pow2;
    Pow2Widths();
    PowStep(33);
    DivModUnique(33, Pow2(33), 0, 33);
  }

  lemma ConstantShiftShows(i: Inst) returns (s: Regs)
    requires ShiftInst(i) && OperandReg(i.operands[2]).None?
    ensures !SameRegs(i, s)
  {
    hide OperandVal, JitValue, SetReg, DataEffect, Apply, BinaryValue, JitRegs, GetReg, RawRead, ShiftValue, Only,
         ConstantOf, JitConstant;
    var rd, rn, o := i.operands[0].reg, i.operands[1].reg, i.operands[2];
    var a := if rd.W? then NarrowWitness(i.op) else WideWitness(i.op);
    s := Only(rn, a);
    OnlyReads(rn, a, rn);
    ShiftForm(i, s);
    BinaryJit(i, s);
    GprValue(i.operands[1], s);
    ConstantValue(o, false, s);
    ConstantsDiffer(i.op, rd, JitConstant(o, false), ConstantOf(o), a);
    if SameRegs(i, s) {
      var w := rd.Width();
      DestShows(rd, BinaryValue(i.op, a, JitConstant(o, false)),
                ShiftValue(i.op, a % w.Modulus(), ConstantOf(o) % TWO32 % w.Bits(), w), s);
    }
  }

  lemma ConstantsDiffer(op: Op, rd: Reg, x: uint64, y: uint64, a: uint64)
    requires op in {LSL, LSR, ASR} && (rd.X? || rd.W?)
    requires if rd.W? then !(x % 64 == y % 32 && (op == ASR ==> x % 64 == 0)) else x % 64 != y % 64
    requires a == if rd.W? then NarrowWitness(op) else WideWitness(op)
    ensures var w := rd.Width();
            && a % w.Modulus() == a
            && BinaryValue(op, a, x) % w.Modulus() != ShiftValue(op, a, y % TWO32 % w.Bits(), w) % w.Modulus()
  {
    hide ShiftValue, BinaryValue;
    LowAmount(y);
    ByAmount(op, a, x);
    if rd.W? {
      NarrowDiffers(op, x % 64, y % 32);
    } else {
      WideDiffers(op, x % 64, y % 64);
    }
  }

  lemma ByAmount(op: Op, a: uint64, x: uint64)
    requires op in {LSL, LSR, ASR}
    ensures BinaryValue(op, a, x) == ShiftValue(op, a, x % 64, W64)
  {
  }

  function NarrowWitness(op: Op): uint64 { if op == LSL then 1 else TWO31 }

  function WideWitness(op: Op): uint64 { if op == LSL then 1 else if op == LSR then TWO63 else TWO63 / 2 }

  lemma NarrowDiffers(op: Op, k: nat, l: nat)
    requires op in {LSL, LSR, ASR} && k < 64 && l < 32 && !(k == l && (op == ASR ==> k == 0))
    ensures var a := NarrowWitness(op);
            ShiftValue(op, a, k, W64) % TWO32 != ShiftValue(op, a, l, W32) % TWO32
  {
    hide ShiftLeft, ShiftRight, ShiftRightArith;
    if op == LSL {
      LeftDiffers(k, l);
    } else if op == LSR {
      RightDiffers(k, l);
    } else {
      ArithDiffers(k, l);
    }
  }

  lemma LeftDiffers(k: nat, l: nat)
    requires k < 64 && l < 32 && k != l
    ensures ShiftLeft(1, k, W64) % TWO32 != ShiftLeft(1, l, W32) % TWO32
  {
    hide ShiftLeft, Pow2;
    LeftOne(l, W32);
    LeftOne(k, W64);
    if k < 32 {
      Pow2Distinct(k, l, 31);
    } else {
      LeftOut(k);
      Pow2Distinct(l, 32, 32);
    }
  }

  lemma RightDiffers(k: nat, l: nat)
    requires k < 64 && l < 32 && k != l
    ensures ShiftRight(TWO31, k) % TWO32 != ShiftRight(TWO31, l) % TWO32
  {
    hide ShiftRight, Pow2;
    RightHalf(l);
    if k < 32 {
      RightHalf(k);
      Pow2Distinct(31 - k, 31 - l, 31);
    } else {
      RightOut(k);
      Pow2Distinct(31 - l, 32, 32);
    }
  }

  lemma Pow2Distinct(k: nat, l: nat, top: nat)
    requires k != l && k <= top && l <= top
    ensures 0 < Pow2(k) <= Pow2(top) && 0 < Pow2(l) <= Pow2(top) && Pow2(k) != Pow2(l)
    ensures Pow2(31) == TWO31 && Pow2(32) == TWO32 && Pow2(63) == TWO63
  {
    hide Pow2;
    Pow2Monotone(k, top);
    Pow2Monotone(l, top);
    if k < l {
      Pow2Monotone(k, l);
    } else {
      Pow2Monotone(l, k);
    }
    Pow2Widths();
  }

  lemma LeftOne(k: nat, w: Width)
    requires k < w.Bits()
    ensures ShiftLeft(1, k, w) == Pow2(k) < w.Modulus()
  {
    hide Pow2;
    Pow2Monotone(k, w.Bits());
    WidthPowers(w);
    OneTimes(Pow2(k), w.Modulus());
  }

  lemma LeftOut(k: nat)
    requires 32 <= k < 64
    ensures Pow2(k) % TWO32 == 0
  {
    hide Pow2;
    Pow2Widths();
    Pow2Add(32, k - 32);
    ModAddMultiple(0, Pow2(k - 32), TWO32);
  }

  lemma RightHalf(k: nat)
    requires k < 32
    ensures ShiftRight(TWO31, k) == Pow2(31 - k) <= TWO31
  {
    hide Pow2;
    Pow2Widths();
    Pow2Add(k, 31 - k);
    DivModUnique(TWO31, Pow2(k), Pow2(31 - k), 0);
    Pow2Monotone(31 - k, 31);
  }

  lemma RightOut(k: nat)
    requires 32 <= k < 64
    ensures ShiftRight(TWO31, k) == 0
  {
    hide Pow2;
    Pow2Widths();
    Pow2Monotone(32, k);
    DivModUnique(TWO31, Pow2(k), 0, TWO31);
  }

  lemma ArithDiffers(k: nat, l: nat)
    requires k < 64 && l < 32 && (k > 0 || l > 0)
    ensures ShiftRightArith(TWO31, k, W64) % TWO32 != ShiftRightArith(TWO31, l, W32) % TWO32
  {
    hide ShiftRightArith, Pow2;
    var x, y := ShiftRightArith(TWO31, k, W64), ShiftRightArith(TWO31, l, W32);
    if l == 0 {
      ShiftByNothing(TWO31, W32);
    } else {
      TopShifted(l, W32);
    }
    if k == 0 {
      ShiftByNothing(TWO31, W64);
    } else {
      PositiveShift(k);
    }
    SmallDiffer(x, y);
  }

  lemma SmallDiffer(x: nat, y: nat)
    requires x <= TWO31 <= y < TWO32 && x != y
    ensures x % TWO32 != y % TWO32
  {
  }

  lemma PositiveShift(k: nat)
    requires 1 <= k < 64
    ensures ShiftRightArith(TWO31, k, W64) < TWO31
  {
    PowBig(k);
    hide Pow2;
    DivHalf(TWO31, Pow2(k));
  }

  lemma DivHalf(a: nat, p: nat)
    requires p >= 2 && a > 0
    ensures 0 <= a / p < a
  {
    MulMonotone(2, p, a / p);
  }

  lemma WideDiffers(op: Op, k: nat, l: nat)
    requires op in {LSL, LSR, ASR} && k < 64 && l < 64 && k != l
    ensures ShiftValue(op, WideWitness(op), k, W64) != ShiftValue(op, WideWitness(op), l, W64)
  {
    hide ShiftLeft, ShiftRight, ShiftRightArith, Pow2;
    if op == LSL {
      LeftOne(k, W64);
      LeftOne(l, W64);
      Pow2Distinct(k, l, 63);
    } else if op == LSR {
      RightTop(k);
      RightTop(l);
      Pow2Distinct(63 - k, 63 - l, 63);
    } else {
      ArithTop(k);
      ArithTop(l);
      if k < 63 && l < 63 {
        Pow2Distinct(62 - k, 62 - l, 63);
      }
    }
  }

  lemma RightTop(k: nat)
    requires k < 64
    ensures ShiftRight(TWO63, k) == Pow2(63 - k)
  {
    hide Pow2;
    Pow2Widths();
    Pow2Add(k, 63 - k);
    DivModUnique(TWO63, Pow2(k), Pow2(63 - k), 0);
  }

  lemma ArithTop(k: nat)
    requires k < 64
    ensures ShiftRightArith(TWO63 / 2, k, W64) == if k == 63 then 0 else Pow2(62 - k)
    ensures k < 63 ==> Pow2(62 - k) > 0
  {
    hide Pow2;
    Pow2Widths();
    PowStep(63);
    if k == 63 {
      DivModUnique(TWO63 / 2, Pow2(k), 0, TWO63 / 2);
    } else {
      Pow2Add(k, 62 - k);
      DivModUnique(TWO63 / 2, Pow2(k), Pow2(62 - k), 0);
      Pow2Monotone(62 - k, 62);
    }
  }

  // ---------- system registers ----------

  lemma SystemShows(i: Inst) returns (s: Regs)
    requires Form(i) && i.op in {ADRP, MRS, MSR} && !InFragment(i)
    ensures !SameRegs(i, s)
  {
    if i.op == MSR {
      s := ThreadWriteShows(i);
    } else {
      SystemEmits(i);
      if i.operands[0].reg.WSP? {
        s := StackDestShows(i);
      } else if i.operands[0].reg.Vec? {
        s := VectorDestShows(i);
      } else if i.op == ADRP {
        s := PageShows(i);
      } else {
        s := ThreadReadShows(i);
      }
    }
  }

  lemma SystemEmits(i: Inst)
    requires i.op in {ADRP, MRS} && |i.operands| >= 2 && Plain(i.operands[0])
    ensures EmitsCode(i)
  {
  }

  lemma PageShows(i: Inst) returns (s: Regs)
    requires i.op == ADRP && |i.operands| >= 2 && i.operands[0].RegOp? && i.operands[1].Label?
    requires Gpr(i.operands[0].reg) && !IsZero(i.operands[0].reg) && i.operands[1].imm.ToU64() % 0x1000 != 0
    ensures DataForm(i) && !SameRegs(i, s)
  {
    hide SetReg;
    var rd, a := i.operands[0].reg, i.operands[1].imm.ToU64();
    s := Blank();
    if SameRegs(i, s) {
      DestShows(rd, a, a - a % 0x1000, s);
      PageOffset(a, rd.Width());
    }
  }

  lemma PageOffset(a: uint64, w: Width)
    requires a % 0x1000 != 0
    ensures a % w.Modulus() != (a - a % 0x1000) % w.Modulus()
  {
    DifferBy(a - a % 0x1000, a % 0x1000, w.Modulus());
  }

  lemma ThreadReadShows(i: Inst) returns (s: Regs)
    requires i.op == MRS && |i.operands| >= 2 && PlainGpr(i.operands[0]) && !IsZero(i.operands[0].reg)
    requires i.operands[1] != SysReg(TpidrEl0)
    ensures !SameRegs(i, s)
  {
    s := Blank().(tpidr := 1);
    var v := ThreadReadForm(i, s);
    hide JitRegs, DataEffect, Apply, SetReg;
    OneIsOther(v, i.operands[0].reg.Width());
    if SameRegs(i, s) {
      DestShows(i.operands[0].reg, 1, v, s);
    }
  }

  lemma OneIsOther(v: uint64, w: Width)
    requires v in {0, 0x10, 1_000_000_000}
    ensures 1 % w.Modulus() != v % w.Modulus()
  {
  }

  lemma ThreadReadForm(i: Inst, s: Regs) returns (v: uint64)
    requires i.op == MRS && |i.operands| >= 2 && PlainGpr(i.operands[0]) && i.operands[1] != SysReg(TpidrEl0)
    ensures JitRegs(i, s) == SetReg(i.operands[0].reg, s.tpidr, s)
    ensures Apply(DataEffect(i, s), s) == SetReg(i.operands[0].reg, v, s) && v in {0, 0x10, 1_000_000_000}
  {
    hide SetReg;
    v := MrsEffect(i.operands, s).write.value.1;
  }

  lemma ThreadWriteShows(i: Inst) returns (s: Regs)
    requires Form(i) && i.op == MSR && !InFragment(i)
    ensures !SameRegs(i, s)
  {
    var ops := i.operands;
    if ops[0] == SysReg(TpidrEl0) {
      s := Blank().(tpidr := if ConstantOf(ops[1]) == 0 then 1 else 0);
      ConstantValue(ops[1], true, s);
    } else {
      s := Blank().(tpidr := 1);
    }
  }

  // ---------- vector moves ----------

  lemma FloatMoveShows(i: Inst) returns (s: Regs)
    requires Form(i) && i.op == FMOV && !InFragment(i)
    ensures !SameRegs(i, s)
  {
    if OperandReg(i.operands[1]).None? {
      s := SkippedMoveShows(i);
    } else {
      s := CopiedMoveShows(i.operands[0], i.operands[1]);
      FloatMoveEffect(i, s);
      FloatMoveJit(i, s);
      hide JitRegs, DataEffect;
    }
  }

  lemma FloatMoveJit(i: Inst, s: Regs)
    requires i.op == FMOV && |i.operands| >= 2 && Plain(i.operands[0]) && Plain(i.operands[1])
    requires i.operands[0].reg.Vec? || i.operands[1].reg.Vec?
    ensures JitRegs(i, s) == FloatMoveRegs(i.operands[0].reg, i.operands[1].reg, s)
  {
    hide FloatMoveRegs;
  }

  /** An immediate: the compiler skips the move, the interpreter makes it. */
  lemma SkippedMoveShows(i: Inst) returns (s: Regs)
    requires i.op == FMOV && |i.operands| >= 2 && Plain(i.operands[0]) && OperandReg(i.operands[1]).None?
    requires !i.operands[0].reg.WSP? && !IsZero(i.operands[0].reg)
    ensures !EmitsCode(i) && !SameRegs(i, s)
  {
    var rd, c := i.operands[0].reg, ConstantOf(i.operands[1]);
    if rd.Vec? {
      s := OnlyVec(rd.vn, 0, 1);
      assert s.v[rd.vn].hi == 1;
    } else {
      s := Only(rd, if c % rd.Width().Modulus() == 0 then 1 else 0);
      OnlyReads(rd, if c % rd.Width().Modulus() == 0 then 1 else 0, rd);
      WriteReads(rd, c, s);
    }
    SkippedEffect(i, s);
    hide DataEffect, GetReg, SetReg;
  }

  lemma WriteReads(r: Reg, x: uint64, s: Regs)
    requires Gpr(r) && !IsZero(r)
    ensures GetReg(r, SetReg(r, x, s)) == x % r.Width().Modulus()
  {
  }

  lemma SkippedEffect(i: Inst, s: Regs)
    requires i.op == FMOV && |i.operands| >= 2 && Plain(i.operands[0]) && OperandReg(i.operands[1]).None?
    ensures !EmitsCode(i) && JitRegs(i, s) == s
    ensures Apply(DataEffect(i, s), s) == SetReg(i.operands[0].reg, ConstantOf(i.operands[1]), s)
  {
    ConstantValue(i.operands[1], true, s);
    hide OperandVal, SetReg, ConstantOf;
  }

  lemma CopiedMoveShows(rd: Operand, rn: Operand) returns (s: Regs)
    requires Plain(rd) && Plain(rn) && !rd.reg.WSP? && (rd.reg.Vec? || rn.reg.Vec?) && !FloatMoveAgrees(rd, rn)
    ensures FloatMoveRegs(rd.reg, rn.reg, s) != SetReg(rd.reg, GetReg(rn.reg, s), s)
  {
    if rn.reg.Vec? {
      s := OnlyVec(rn.reg.vn, TWO64 - 1, 0);
      VectorSourceShows(rd.reg, rn.reg, s);
    } else if rn.reg.WSP? {
      s := Blank().(sp := 1);
      VecDestShows(rd.reg.vn, 1, 0, s);
    } else {
      var v := if rn.reg.IsW() then TWO32 - 1 else TWO64 - 1;
      s := Only(rn.reg, v);
      OnlyReads(rn.reg, v, rn.reg);
      assert v % rd.reg.view.Modulus() != v;
      VecDestShows(rd.reg.vn, v, v % rd.reg.view.Modulus(), s);
    }
  }

  lemma VectorSourceShows(rd: Reg, rn: Reg, s: Regs)
    requires rn.Vec? && s == OnlyVec(rn.vn, TWO64 - 1, 0) && !rd.WSP? && !FloatMoveAgrees(RegOp(rd), RegOp(rn))
    ensures FloatMoveRegs(rd, rn, s) != SetReg(rd, GetReg(rn, s), s)
  {
    var m := GetReg(rn, s);
    if rd.Vec? {
      VecDestShows(rd.vn, TWO64 - 1, m % rd.view.Modulus(), s);
    } else if SetReg(rd, TWO64 - 1, s) == SetReg(rd, m, s) {
      DestShows(rd, TWO64 - 1, m, s);
    }
  }

  // ---------- the exact condition ----------

  /**
   On every form of the instruction set that reaches the interpreter's integer arms, generated code and
   interpreter agree on every register file if and only if the instruction is in the agreeing fragment.
   */
  lemma FragmentIsExact(i: Inst)
    requires Form(i)
    ensures IsData(i.op) && (AlwaysSame(i) <==> InFragment(i))
  {
    hide InFragment, DataEffect, Apply, JitRegs, SameRegs, VectorForm, SourcesForm;
    if InFragment(i) {
      forall s: Regs
        ensures SameRegs(i, s)
      {
        DataAgrees(i, s);
      }
    } else {
      var s := Disagreement(i);
    }
  }

  /** A register file on which generated code and interpreter differ. */
  lemma Disagreement(i: Inst) returns (s: Regs)
    requires Form(i) && !InFragment(i)
    ensures IsData(i.op) && !SameRegs(i, s)
  {
    hide DataEffect, Apply, JitRegs, SameRegs, VectorForm, SourcesForm, WriteAgrees, FloatMoveAgrees, SourceAgrees;
    if i.op == MOV {
      s := MoveShows(i);
    } else if i.op in {ADD, SUB, EOR} {
      s := ArithShows(i);
    } else if i.op == AND {
      s := AndShows(i);
    } else if i.op == ORR {
      s := OrShows(i);
    } else if i.op in {LSL, LSR, ASR} {
      s := ShiftsShow(i);
    } else if i.op in {ADRP, MRS, MSR} {
      s := SystemShows(i);
    } else {
      s := FloatMoveShows(i);
    }
  }

  /** What the compiler skips for want of a register agrees exactly when the interpreter's arm writes nothing. */
  lemma SkippedIsExact(i: Inst)
    requires Form(i) && !EmitsCode(i)
    ensures IsData(i.op)
    ensures AlwaysSame(i) <==>
            if i.op == MSR then i.operands[0] != SysReg(TpidrEl0)
            else OpReg(i.operands[0]).None? || IsZero(OpReg(i.operands[0]).value)
  {
    hide AlwaysSame;
    FragmentIsExact(i);
    SkippedForms(i);
  }

  lemma SkippedForms(i: Inst)
    requires Form(i) && !EmitsCode(i)
    ensures InFragment(i) <==>
            if i.op == MSR then i.operands[0] != SysReg(TpidrEl0)
            else OpReg(i.operands[0]).None? || IsZero(OpReg(i.operands[0]).value)
  {
    hide VectorForm, SourceAgrees, AddsNoBit, AmountAgrees, ArithAgrees, WriteAgrees;
    if i.op != MSR && OpReg(i.operands[0]).Some? {
      SkippedOps(i);
    }
  }

  lemma SkippedOps(i: Inst)
    requires Form(i) && !EmitsCode(i) && i.op != MSR && OpReg(i.operands[0]).Some?
    ensures Plain(i.operands[0]) && |i.operands| >= 2
    ensures i.operands[0].reg.Vec? || (i.op == FMOV && OperandReg(i.operands[1]).None?)
  {
    hide VectorForm;
  }

  // ---------- one instruction for each reason ----------

  /** ORR drops its third operand. */
  lemma DroppedOperand()
    ensures !AlwaysSame(Inst(ORR, [RegOp(X(0)), RegOp(X(1)), RegOp(X(2))]))
  {
    hide AlwaysSame;
    FragmentIsExact(Inst(ORR, [RegOp(X(0)), RegOp(X(1)), RegOp(X(2))]));
  }

  /** The shift of a second source is dropped. */
  lemma DroppedShift()
    ensures !AlwaysSame(Inst(AND, [RegOp(X(0)), RegOp(X(1)), ShiftReg(X(2), Lsl(1))]))
  {
    hide AlwaysSame;
    FragmentIsExact(Inst(AND, [RegOp(X(0)), RegOp(X(1)), ShiftReg(X(2), Lsl(1))]));
  }

  /** So it is at 32 bits. */
  lemma DroppedNarrowShift()
    ensures !AlwaysSame(Inst(ADD, [RegOp(W(0)), RegOp(W(1)), ShiftReg(W(2), Lsl(1))]))
  {
    hide AlwaysSame;
    FragmentIsExact(Inst(ADD, [RegOp(W(0)), RegOp(W(1)), ShiftReg(W(2), Lsl(1))]));
  }

  /** A 32-bit shift by a register takes the amount modulo 64. */
  lemma NarrowRegisterShift()
    ensures !AlwaysSame(Inst(LSL, [RegOp(W(0)), RegOp(W(1)), RegOp(W(2))]))
  {
    hide AlwaysSame;
    FragmentIsExact(Inst(LSL, [RegOp(W(0)), RegOp(W(1)), RegOp(W(2))]));
  }

  /** WSP is written by the compiler alone. */
  lemma NarrowStackPointer()
    ensures !AlwaysSame(Inst(ADD, [RegOp(WSP), RegOp(WSP), ImmOp(UnsignedImm(16), None)]))
  {
    hide AlwaysSame;
    FragmentIsExact(Inst(ADD, [RegOp(WSP), RegOp(WSP), ImmOp(UnsignedImm(16), None)]));
  }

  /** A vector immediate is skipped. */
  lemma SkippedImmediate()
    ensures !AlwaysSame(Inst(FMOV, [RegOp(Vec(ViewD, 0)), ImmOp(UnsignedImm(0), None)]))
  {
    hide AlwaysSame;
    FragmentIsExact(Inst(FMOV, [RegOp(Vec(ViewD, 0)), ImmOp(UnsignedImm(0), None)]));
  }

  /** A sign extension beyond the destination's width makes no difference. */
  lemma HarmlessExtension()
    ensures AlwaysSame(Inst(ADD, [RegOp(W(0)), RegOp(W(1)), ShiftReg(W(2), Sxtw(0))]))
  {
    hide AlwaysSame;
    FragmentIsExact(Inst(ADD, [RegOp(W(0)), RegOp(W(1)), ShiftReg(W(2), Sxtw(0))]));
  }

  /** The difference in registers is a difference in what the block leaves in the raw context. */
  lemma CodeAgreesIff(fp: Fp, i: Inst, pc: uint64, s: Regs)
    requires pc + 4 < TWO64 && DataForm(i) && IsData(i.op)
    ensures var im := Image(s, pc);
            Emits(fp, [], i, pc, Layout(im), im, Apply(DataEffect(i, s), s)) <==> SameRegs(i, s)
  {
    hide Translate, Layout, DataEffect, Apply, JitRegs, DataForm, EmitsCode;
    var im := Image(s, pc);
    assert Holds(fp, [], Layout(im), im);
    DataCode(fp, [], i, pc, Layout(im), im);
    ParseLayout(im.(regs := JitRegs(i, s)));
    ParseLayout(im.(regs := Apply(DataEffect(i, s), s)));
  }
}
