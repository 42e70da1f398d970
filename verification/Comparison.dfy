/** What the flags of comparisons and additions mean, at both operand widths. */
module Comparison {
  import opened Words
  import opened Machine
  import opened Alu
  import opened Interp

  /** The mathematical comparison that a condition stands for after comparing `a` with `b`. */
  predicate Compares(c: Cond, a: nat, b: nat, w: Width)
    requires a < w.Modulus() && b < w.Modulus()
  {
    var sa, sb := Signed(a, w), Signed(b, w);
    match c
    case EQ => a == b
    case NE => a != b
    case CS => a >= b
    case CC => a < b
    case HI => a > b
    case LS => a <= b
    case GE => sa >= sb
    case LT => sa < sb
    case GT => sa > sb
    case LE => sa <= sb
    case VS => !InRange(sa - sb, w)
    case VC => InRange(sa - sb, w)
    case MI => Signed((a - b) % w.Modulus(), w) < 0
    case PL => Signed((a - b) % w.Modulus(), w) >= 0
    case AL => true
  }

  predicate InRange(x: int, w: Width) { 0 - w.Half() <= x < w.Half() }

  /** The sign-bit test that the interpreter uses for overflow, as a statement about sign bits. */
  lemma OverflowBit(x: nat, y: nat, r: nat, w: Width)
    requires x < w.Modulus() && y < w.Modulus() && r < w.Modulus()
    ensures And(And(Xor(x, y), Xor(x, r)), w.Half()) != 0 <==>
            (x >= w.Half()) != (y >= w.Half()) && (x >= w.Half()) != (r >= w.Half())
  {
    hide And, Xor, Pow2;
    var k := w.Bits() - 1;
    WidthPowers(w);
    TopBit(x, y, k);
    TopBit(x, r, k);
    TopBit(Xor(x, y), Xor(x, r), k);
    AndSingleBit(And(Xor(x, y), Xor(x, r)), k);
  }

  /** After a comparison each condition holds exactly when the comparison it stands for does. */
  lemma SubFlagsCompare(c: Cond, v1: uint64, v2: uint64, w: Width)
    ensures EvalCond(c, SubFlags(v1, v2, w)) <==> Compares(c, v1 % w.Modulus(), v2 % w.Modulus(), w)
  {
    SubFlagsMean(v1, v2, w);
    hide SubFlags;
  }

  /** The four flags of a subtraction, in terms of the operands. */
  lemma SubFlagsMean(v1: uint64, v2: uint64, w: Width)
    ensures var a, b := v1 % w.Modulus(), v2 % w.Modulus();
            var f := SubFlags(v1, v2, w);
            && (f.c <==> a >= b) && (f.z <==> a == b)
            && (f.n <==> Signed((a - b) % w.Modulus(), w) < 0)
            && (f.v <==> !InRange(Signed(a, w) - Signed(b, w), w))
            && (f.n == f.v <==> Signed(a, w) >= Signed(b, w))
  {
    hide And, Xor;
    var m := w.Modulus();
    var a, b := v1 % m, v2 % m;
    OverflowBit(a, b, (a - b) % m, w);
    SubWraps(a, b, w);
  }

  lemma SubWraps(a: nat, b: nat, w: Width)
    requires a < w.Modulus() && b < w.Modulus()
    ensures (a - b) % w.Modulus() == if a >= b then a - b else a - b + w.Modulus()
  {
  }

  /** After an addition C is unsigned overflow and V is signed overflow of the sum; N and Z describe its low bits. */
  lemma AddFlagsMean(v1: uint64, v2: uint64, w: Width)
    ensures var a, b := v1 % w.Modulus(), v2 % w.Modulus();
            var f := AddFlags(v1, v2, w);
            && (f.c <==> a + b >= w.Modulus())
            && (f.v <==> !InRange(Signed(a, w) + Signed(b, w), w))
            && (f.n <==> Signed((a + b) % w.Modulus(), w) < 0)
            && (f.z <==> (a + b) % w.Modulus() == 0)
  {
    hide And, Xor;
    var m := w.Modulus();
    var a, b := v1 % m, v2 % m;
    OverflowBit(a, m - 1 - b, (a + b) % m, w);
    AddWraps(a, b, w);
  }

  lemma AddWraps(a: nat, b: nat, w: Width)
    requires a < w.Modulus() && b < w.Modulus()
    ensures (a + b) % w.Modulus() == if a + b >= w.Modulus() then a + b - w.Modulus() else a + b
  {
  }

  // ---------- at the level of instructions ----------

  lemma FlagsOf(e: Effect, s: Regs)
    requires e.flags.Some?
    ensures GetFlags(Apply(e, s).pstate) == e.flags.value
  {
  }

  /**
   CMP followed by a conditional branch: control reaches the target exactly when the compared operands
   stand in the relation the condition names. The width is that of the first operand's register.
   */
  lemma CompareAndBranch(op1: Operand, op2: Operand, c: BranchCond, target: Imm, s: Regs, pc: uint64)
    requires pc + 8 < TWO64 && target.ToU64() != pc + 8
    ensures var w := OperandWidth(op1);
            var s1 := Apply(DataEffect(Inst(CMP, [op1, op2]), s), s);
            var j := Control(Inst(BCOND(c), [Label(target)]), s1, pc + 4);
            && j.regs == s1
            && s1 == s.(pstate := s1.pstate)
            && (j.next == target.ToU64() <==> Compares(c, OperandVal(op1, s) % w.Modulus(), OperandVal(op2, s) % w.Modulus(), w))
  {
    hide OperandVal, SubFlags, Compares, OperandWidth, DataEffect, EvalCond, GetFlags, SetFlags, Control;
    CompareForm(op1, op2, s);
    var e := DataEffect(Inst(CMP, [op1, op2]), s);
    SubFlagsCompare(c, OperandVal(op1, s), OperandVal(op2, s), OperandWidth(op1));
    FlagsOf(e, s);
    BranchForm(c, target, Apply(e, s), pc + 4);
  }

  lemma CompareForm(op1: Operand, op2: Operand, s: Regs)
    ensures DataEffect(Inst(CMP, [op1, op2]), s) ==
            Effect(None, Some(SubFlags(OperandVal(op1, s), OperandVal(op2, s), OperandWidth(op1))), None)
  {
    hide OperandVal, SubFlags, OperandWidth;
  }

  /** CMP followed by CSEL picks the first source exactly when the compared operands stand in the named relation. */
  lemma CompareAndSelect(op1: Operand, op2: Operand, c: Cond, rd: Reg, rn: Reg, rm: Reg, s: Regs)
    requires (rd.X? || rd.W?) && Numbered(rn, rd.Width()) && Numbered(rm, rd.Width())
    ensures var w := OperandWidth(op1);
            var s1 := Apply(DataEffect(Inst(CMP, [op1, op2]), s), s);
            var s2 := Apply(DataEffect(Inst(CSEL, [RegOp(rd), RegOp(rn), RegOp(rm), CondOp(c)]), s1), s1);
            GetReg(rd, s2) ==
              if Compares(c, OperandVal(op1, s) % w.Modulus(), OperandVal(op2, s) % w.Modulus(), w) then GetReg(rn, s)
              else GetReg(rm, s)
  {
    hide OperandVal, SubFlags, Compares, OperandWidth, DataEffect, EvalCond, GetFlags, SetFlags;
    CompareForm(op1, op2, s);
    var e := DataEffect(Inst(CMP, [op1, op2]), s);
    SubFlagsCompare(c, OperandVal(op1, s), OperandVal(op2, s), OperandWidth(op1));
    FlagsOf(e, s);
    SelectForm(rd, rn, rm, c, Apply(e, s));
    ValueFits(rn, s);
    ValueFits(rm, s);
  }

  /** A numbered or zero register of the width. */
  predicate Numbered(r: Reg, w: Width) { (r.X? || r.W? || r.XZR? || r.WZR?) && r.Width() == w }

  lemma SelectForm(rd: Reg, rn: Reg, rm: Reg, c: Cond, s: Regs)
    ensures DataEffect(Inst(CSEL, [RegOp(rd), RegOp(rn), RegOp(rm), CondOp(c)]), s) ==
            WriteTo(Some(rd), if EvalCond(c, GetFlags(s.pstate)) then GetReg(rn, s) else GetReg(rm, s))
  {
    hide EvalCond, GetFlags, GetReg;
  }

  /** SUBS into a register of its sources' width leaves the difference modulo the width and the flags of CMP. */
  lemma SubSetsFlags(rd: Reg, op1: Operand, op2: Operand, s: Regs)
    requires (rd.X? || rd.W?) && rd.Width() == OperandWidth(op1)
    ensures var w := rd.Width();
            var s1 := Apply(DataEffect(Inst(SUBS, [RegOp(rd), op1, op2]), s), s);
            var s2 := Apply(DataEffect(Inst(CMP, [op1, op2]), s), s);
            && GetReg(rd, s1) == (OperandVal(op1, s) - OperandVal(op2, s)) % w.Modulus()
            && s2 == s.(pstate := s1.pstate)
  {
    hide OperandVal, SubFlags, OperandWidth, DataEffect, SetFlags;
    CompareForm(op1, op2, s);
    SubForm(rd, op1, op2, s);
    DifferenceLow(OperandVal(op1, s), OperandVal(op2, s));
  }

  lemma SubForm(rd: Reg, op1: Operand, op2: Operand, s: Regs)
    ensures var v1, v2 := OperandVal(op1, s), OperandVal(op2, s);
            DataEffect(Inst(SUBS, [RegOp(rd), op1, op2]), s) ==
              Effect(Some((rd, Wrap64(v1 - v2))), Some(SubFlags(v1, v2, OperandWidth(op1))), None)
  {
    hide OperandVal, SubFlags, OperandWidth, Wrap64;
  }

  lemma DifferenceLow(v1: uint64, v2: uint64)
    ensures Wrap64(v1 - v2) % TWO32 == (v1 - v2) % TWO32
  {
    var x := if v1 >= v2 then v1 - v2 else v1 - v2 + TWO64;
    assert Wrap64(v1 - v2) == x;
    ModAddMultiple(v1 - v2, TWO32, TWO32);
  }

  /** TST followed by B.EQ branches exactly when the two operands share no set bit of the width; B.MI, when both have the top bit. */
  lemma TestAndBranch(r1: Reg, op2: Operand, target: Imm, s: Regs, pc: uint64)
    requires (r1.X? || r1.W?) && pc + 8 < TWO64 && target.ToU64() != pc + 8
    ensures var w := r1.Width();
            var both := And64(GetReg(r1, s), OperandVal(op2, s));
            var s1 := Apply(DataEffect(Inst(TST, [RegOp(r1), op2]), s), s);
            && s1 == s.(pstate := s1.pstate)
            && (Control(Inst(BCOND(EQ), [Label(target)]), s1, pc + 4).next == target.ToU64() <==> both == 0)
            && (Control(Inst(BCOND(MI), [Label(target)]), s1, pc + 4).next == target.ToU64() <==>
                  GetReg(r1, s) >= w.Half() && OperandVal(op2, s) % w.Modulus() >= w.Half())
  {
    hide And, GetFlags, SetFlags, DataEffect, GetReg, OperandVal, Control;
    var e := DataEffect(Inst(TST, [RegOp(r1), op2]), s);
    TestForm(r1, op2, s);
    FlagsOf(e, s);
    BranchForm(EQ, target, Apply(e, s), pc + 4);
    BranchForm(MI, target, Apply(e, s), pc + 4);
    ValueFits(r1, s);
    TopOfBoth(GetReg(r1, s), OperandVal(op2, s), r1.Width());
  }

  lemma BranchForm(c: BranchCond, target: Imm, s: Regs, pc: uint64)
    requires pc + 4 < TWO64
    ensures Control(Inst(BCOND(c), [Label(target)]), s, pc) ==
            Jump(s, if EvalCond(c, GetFlags(s.pstate)) then target.ToU64() else pc + 4)
  {
    hide EvalCond, GetFlags;
  }

  lemma ValueFits(r: Reg, s: Regs)
    requires Numbered(r, r.Width())
    ensures GetReg(r, s) < r.Width().Modulus()
  {
  }

  lemma TestForm(r1: Reg, op2: Operand, s: Regs)
    requires r1.X? || r1.W?
    ensures DataEffect(Inst(TST, [RegOp(r1), op2]), s) ==
            Effect(None, Some(LogicFlags(And64(GetReg(r1, s), OperandVal(op2, s)), r1.Width())), None)
  {
    hide GetReg, LogicFlags, And64;
  }

  lemma TopOfBoth(a: uint64, b: uint64, w: Width)
    requires a < w.Modulus()
    ensures And(a, b) % w.Modulus() == And(a, b)
    ensures And(a, b) >= w.Half() <==> a >= w.Half() && b % w.Modulus() >= w.Half()
  {
    hide And, Pow2;
    WidthPowers(w);
    AndBelow(a, b, w.Bits());
    TopBit(a, b % w.Modulus(), w.Bits() - 1);
    DivModUnique(And(a, b), w.Modulus(), 0, And(a, b));
  }

  /**
   ADDS into a general register of its sources' width leaves the sum modulo the width in it, unsigned overflow
   in C and signed overflow in V; CMN leaves the same flags and no result.
   */
  lemma AddSetsFlags(rd: Reg, op1: Operand, op2: Operand, s: Regs)
    requires (rd.X? || rd.W?) && rd.Width() == OperandWidth(op1)
    ensures var w := rd.Width();
            var a, b := OperandVal(op1, s) % w.Modulus(), OperandVal(op2, s) % w.Modulus();
            var s1 := Apply(DataEffect(Inst(ADDS, [RegOp(rd), op1, op2]), s), s);
            var s2 := Apply(DataEffect(Inst(CMN, [op1, op2]), s), s);
            && GetReg(rd, s1) == (a + b) % w.Modulus()
            && (GetFlags(s1.pstate).c <==> a + b >= w.Modulus())
            && (GetFlags(s1.pstate).v <==> !InRange(Signed(a, w) + Signed(b, w), w))
            && s2 == s.(pstate := s1.pstate)
  {
    hide OperandVal, AddFlags, OperandWidth, DataEffect, Wrap64, SetFlags, GetFlags, Signed, Apply, GetReg;
    var v1, v2, w := OperandVal(op1, s), OperandVal(op2, s), rd.Width();
    AddForms(rd, op1, op2, s);
    AddFlagsMean(v1, v2, w);
    WriteAndFlags(rd, DataEffect(Inst(ADDS, [RegOp(rd), op1, op2]), s).write.value.1, AddFlags(v1, v2, w), s);
    SumLow(v1, v2, w);
  }

  /** A write together with flags, and the flags alone. */
  lemma WriteAndFlags(rd: Reg, v: uint64, f: Flags, s: Regs)
    requires rd.X? || rd.W?
    ensures var s1 := Apply(Effect(Some((rd, v)), Some(f), None), s);
            && GetReg(rd, s1) == v % rd.Width().Modulus() && GetFlags(s1.pstate) == f
            && Apply(Effect(None, Some(f), None), s) == s.(pstate := s1.pstate)
  {
    hide GetFlags, SetFlags;
  }

  lemma AddForms(rd: Reg, op1: Operand, op2: Operand, s: Regs)
    requires rd.X? || rd.W?
    ensures var v1, v2 := OperandVal(op1, s), OperandVal(op2, s);
            var f := AddFlags(v1, v2, OperandWidth(op1));
            && DataEffect(Inst(ADDS, [RegOp(rd), op1, op2]), s) == Effect(Some((rd, Wrap64(v1 + v2))), Some(f), None)
            && DataEffect(Inst(CMN, [op1, op2]), s) == Effect(None, Some(f), None)
  {
    hide OperandVal, AddFlags, OperandWidth, Wrap64;
  }

  lemma SumLow(v1: uint64, v2: uint64, w: Width)
    ensures Wrap64(v1 + v2) % w.Modulus() == (v1 % w.Modulus() + v2 % w.Modulus()) % w.Modulus()
  {
    WrapMod(v1 + v2, w);
    SumMod(v1, v2, w.Modulus());
  }
}
