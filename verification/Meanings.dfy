/** What single interpreter steps leave behind, instruction by instruction, stated on values. */
module Meanings {
  import opened Words
  import opened BitFacts
  import opened Memory
  import opened Machine
  import opened Alu
  import opened Interp
  import opened Bitfields
  import opened Bits
  import opened Comparison

  // ---------- register names ----------

  /** The storage behind a register name: a general register, the stack pointer or a vector register. */
  datatype Cell = General(n: GprIndex) | Stack | Vector(v: VecIndex)

  function CellOf(r: Reg): Option<Cell> {
    match r
    case X(n) => Some(General(n))
    case W(n) => Some(General(n))
    case SP => Some(Stack)
    case Vec(_, n) => Some(Vector(n))
    case _ => None
  }

  /** One more than the largest value that a read or write through the name passes on. */
  function Span(r: Reg): int {
    match r
    case W(_) => TWO32
    case Vec(ViewB, _) => 0x100
    case Vec(ViewH, _) => 0x1_0000
    case Vec(ViewS, _) => TWO32
    case _ => TWO64
  }

  /**
   A write through one name is seen through every name of the same storage, cut to both names' sizes: a W write
   clears the upper half of its X register. Other storage is not touched, and a name without storage keeps nothing.
   */
  lemma WriteThenRead(r: Reg, q: Reg, v: uint64, s: Regs)
    ensures GetReg(q, SetReg(r, v, s)) ==
            if CellOf(r).Some? && CellOf(q) == CellOf(r) then v % Span(r) % Span(q) else GetReg(q, s)
    ensures CellOf(q).None? ==> GetReg(q, s) == 0
    ensures CellOf(r).None? ==> SetReg(r, v, s) == s
  {
  }

  /** A write to a vector name clears the part of the register above the name. */
  lemma VectorWriteClears(view: VecView, n: VecIndex, v: uint64, s: Regs)
    ensures SetReg(Vec(view, n), v, s).v[n].hi == 0
    ensures SetReg(Vec(view, n), v, s) == SetReg(Vec(ViewD, n), v % Span(Vec(view, n)), s)
  {
  }

  // ---------- fetching ----------

  /** The word fetched at an address is its four bytes, least significant first; it is there when all four are mapped. */
  lemma FetchedWord(m: Mem, pc: nat, w: uint32)
    ensures Fetch(m, pc) == Some(w) <==>
            && ByteAt(m.segments, pc) == Some(w % 0x100)
            && ByteAt(m.segments, pc + 1) == Some(w / 0x100 % 0x100)
            && ByteAt(m.segments, pc + 2) == Some(w / 0x1_0000 % 0x100)
            && ByteAt(m.segments, pc + 3) == Some(w / 0x100_0000)
    ensures Fetch(m, pc).Some? <==> Mapped(m.segments, pc, 4)
  {
    hide ByteAt, ReadSpec, Fetch, Le;
    FetchIsRead(m, pc, w);
    FourBytes(w);
    var d := Le(w, 4);
    if Fetch(m, pc) == Some(w) {
      assert forall k :: 0 <= k < 4 ==> ByteAt(m.segments, pc + k) == Some(d[k]);
      assert ByteAt(m.segments, pc + 0) == Some(d[0]);
    }
    if ByteAt(m.segments, pc) == Some(d[0]) && ByteAt(m.segments, pc + 1) == Some(d[1])
       && ByteAt(m.segments, pc + 2) == Some(d[2]) && ByteAt(m.segments, pc + 3) == Some(d[3]) {
      ReadUnique(m.segments, pc, d);
    }
  }

  lemma FetchIsRead(m: Mem, pc: nat, w: uint32)
    ensures Fetch(m, pc) == Some(w) <==> ReadSpec(m.segments, pc, 4) == Some(Le(w, 4))
    ensures Fetch(m, pc).Some? <==> Mapped(m.segments, pc, 4)
  {
    hide ByteAt, FromLe, Le;
    var b := ReadSpec(m.segments, pc, 4);
    Pow2Widths();
    FromLeLe(w, 4);
    if b.Some? {
      LeFromLe(b.value);
    }
  }

  lemma FourBytes(w: uint32)
    ensures Le(w, 4) == [w % 0x100, w / 0x100 % 0x100, w / 0x1_0000 % 0x100, w / 0x100_0000]
  {
    assert Le(w, 4) == [w % 0x100] + Le(w / 0x100, 3);
    assert Le(w / 0x100, 3) == [w / 0x100 % 0x100] + Le(w / 0x100 / 0x100, 2);
    assert Le(w / 0x100 / 0x100, 2) == [w / 0x100 / 0x100 % 0x100] + Le(w / 0x100 / 0x100 / 0x100, 1);
    assert Le(w / 0x100 / 0x100 / 0x100, 1) == [w / 0x100 / 0x100 / 0x100 % 0x100] + Le(w / 0x100 / 0x100 / 0x100 / 0x100, 0);
  }

  // ---------- the words recognised without the decoder ----------

  /** Masking out the low `n` bits. */
  lemma AndHigh(a: nat, n: nat, m: nat)
    requires n <= m && a < Pow2(m)
    ensures Pow2(m) - Pow2(n) >= 0
    ensures And(a, Pow2(m) - Pow2(n)) == a - a % Pow2(n)
  {
    hide Pow2, And;
    Pow2Monotone(n, m);
    var mask := Pow2(m) - Pow2(n);
    forall k: nat | k < m
      ensures Bit(mask, k) <==> k >= n
      ensures Bit(a - a % Pow2(n), k) <==> k >= n && Bit(a, k)
      ensures Bit(And(a, mask), k) <==> k >= n && Bit(a, k)
    {
      HighPart(a, n, k);
      OnesAbove(0, n, m, k);
      if k < n {
        ZeroBits(k);
      }
      AndBits(a, mask, k);
    }
    BitsDetermine(And(a, mask), a - a % Pow2(n), m);
  }

  lemma HighPart(a: nat, n: nat, k: nat)
    ensures a - a % Pow2(n) >= 0
    ensures Bit(a - a % Pow2(n), k) <==> k >= n && Bit(a, k)
  {
    hide Pow2, ShiftRight, Bit;
    var q := ShiftRight(a, n);
    ShiftRightIs(a, n);
    assert a - a % Pow2(n) == q * Pow2(n);
    ShiftedUpBits(q, n, k);
    if k >= n {
      RightBits(a, n, k - n);
    }
  }

  lemma MaskPowers()
    ensures Pow2(9) == 0x200 && Pow2(20) == 0x10_0000 && Pow2(32) == TWO32
  {
    Pow2Add(8, 1);
    Pow2Add(16, 4);
    Pow2Widths();
    assert Pow2(4) == 16;
  }

  /** The zeroing instruction's words, and the system words that are skipped when they do not decode. */
  lemma SystemWords(word: uint32)
    ensures IsZeroLine(word) <==> 0xd50b_7400 <= word < 0xd50b_7600
    ensures IsHint(word) <==> 0xd500_0000 <= word < 0xd510_0000
  {
    hide And, Pow2;
    MaskPowers();
    AndHigh(word, 9, 32);
    AndHigh(word, 20, 32);
    if And(word, 0xffff_f01f) == 0xd503_201f {
      HintIsSystem(word);
    }
  }

  /** The first hint pattern lies inside the range of the second. */
  lemma HintIsSystem(word: uint32)
    requires And(word, 0xffff_f01f) == 0xd503_201f
    ensures 0xd500_0000 <= word < 0xd510_0000
  {
    hide And, Pow2;
    MaskPowers();
    var top := And(word, 0xfff0_0000);
    assert top == 0xd500_0000 by {
      forall k: nat | k < 32
        ensures Bit(top, k) <==> Bit(And(0xd503_201f, 0xfff0_0000), k)
      {
        AndBits(word, 0xfff0_0000, k);
        AndBits(word, 0xffff_f01f, k);
        AndBits(0xd503_201f, 0xfff0_0000, k);
        MaskBits(k);
      }
      BitsDetermine(top, And(0xd503_201f, 0xfff0_0000), 32);
      AndHigh(0xd503_201f, 20, 32);
    }
    AndHigh(word, 20, 32);
  }

  lemma MaskBits(k: nat)
    ensures Bit(0xfff0_0000, k) ==> Bit(0xffff_f01f, k)
  {
    hide Pow2, Bit;
    MaskPowers();
    OnesAbove(0, 20, 32, k);
    if k >= 20 {
      RightBits(0xffff_f01f, 20, k - 20);
      RightBits(0xfff0_0000, 20, k - 20);
      ShiftRightIs(0xffff_f01f, 20);
      ShiftRightIs(0xfff0_0000, 20);
    } else {
      ZeroBits(k);
    }
  }

  // ---------- steps ----------

  /** The instruction that the interpreter decodes at the pc of a state that has not exited. */
  predicate Executes(env: Env, s: State, i: Inst) {
    && !s.ctx.exited
    && var w := Fetch(s.mem, s.ctx.pc);
       w.Some? && !IsZeroLine(w.value) && env.decode(w.value, s.ctx.pc) == Some(i)
  }

  /** The state with other registers and another pc, and nothing else changed. */
  function At(s: State, regs: Regs, pc: uint64): State { s.(ctx := s.ctx.(regs := regs, pc := pc)) }

  /**
   What stops a step, or lets it pass over a word: an exited program stays as it is; unmapped code is a memory
   fault; a word the decoder rejects is skipped inside the system range and a decoding fault outside it.
   */
  lemma StepStops(env: Env, s: State)
    ensures s.ctx.exited ==> Step(env, s) == StepResult(s, Exited)
    ensures !s.ctx.exited && !Mapped(s.mem.segments, s.ctx.pc, 4) ==>
              Step(env, s) == StepResult(s, Failed(MemoryFault(s.ctx.pc)))
    ensures forall w: uint32 ::
              (!s.ctx.exited && Fetch(s.mem, s.ctx.pc) == Some(w) && !(0xd50b_7400 <= w < 0xd50b_7600) && env.decode(w, s.ctx.pc).None?) ==>
                Step(env, s) == if 0xd500_0000 <= w < 0xd510_0000 then StepResult(At(s, s.ctx.regs, s.ctx.pc + 4), Continue)
                                else StepResult(s, Failed(DecodeFault(s.ctx.pc)))
  {
    hide IsZeroLine, IsHint, Exec, ZeroLine, ByteAt;
    var w := Fetch(s.mem, s.ctx.pc);
    if w.Some? {
      SystemWords(w.value);
    }
  }

  /** Every integer-core data instruction continues at the next word and touches registers only. */
  lemma DataStep(env: Env, s: State, i: Inst)
    requires Executes(env, s, i) && IsData(i.op)
    requires var ops := i.operands;
             && !(i.op in {ADD, ADDS, MOV, ORR, EOR, AND, ANDS, TST} && |ops| >= 2 && NamesVec(ops[0]))
             && !(i.op == LSL && |ops| >= 4)
    requires i.op == SDIV ==> !DivideOverflows(i.operands, s.ctx.regs)
    ensures s.ctx.pc + 4 < TWO64
    ensures Step(env, s) == StepResult(At(s, Apply(DataEffect(i, s.ctx.regs), s.ctx.regs), s.ctx.pc + 4), Continue)
  {
    hide Fetch, IsZeroLine, DataEffect, Apply, DivideOverflows;
    assert !VectorForm(i) && !VectorPair(i);
  }

  /** The registers that such a step leaves. */
  function After(i: Inst, s: Regs): Regs
    requires IsData(i.op)
  {
    Apply(DataEffect(i, s), s)
  }

  /** Replaces one register by a value of its own width and leaves everything else. */
  predicate Leaves(t: Regs, s: Regs, rd: Reg, val: int) {
    0 <= val < rd.Width().Modulus() && t == SetReg(rd, val, s) && GetReg(rd, t) == val
  }

  lemma LeavesValue(rd: Reg, v: uint64, val: int, s: Regs)
    requires rd.X? || rd.W? || rd.SP?
    requires v % rd.Width().Modulus() == val % rd.Width().Modulus()
    ensures Leaves(Apply(Effect(Some((rd, v)), None, None), s), s, rd, val % rd.Width().Modulus())
  {
    WrittenOnce(rd, v, s);
  }

  // ---------- sums, products, quotients ----------

  /** ADD, SUB and MOV into a register of either width; the two-operand forms take the destination as a source. */
  lemma SumLeft(op: Op, ops: seq<Operand>, rd: Reg, s: Regs)
    requires op in {ADD, SUB, MOV} && |ops| >= 2 && Target(ops[0], rd)
    ensures var n := if |ops| >= 3 then 1 else 0;
            var v1, v2, m := OperandVal(ops[n], s), OperandVal(ops[n + 1], s), rd.Width().Modulus();
            Leaves(After(Inst(op, ops), s), s, rd,
                   (if op == ADD then v1 + v2 else if op == SUB then v1 - v2 else OperandVal(ops[1], s)) % m)
  {
    hide OperandVal, Apply, DataEffect, Wrap64, Leaves;
    var n := if |ops| >= 3 then 1 else 0;
    var v1, v2, w := OperandVal(ops[n], s), OperandVal(ops[n + 1], s), rd.Width();
    var x := if op == ADD then v1 + v2 else if op == SUB then v1 - v2 else OperandVal(ops[1], s);
    WrapMod(x, w);
    LeavesValue(rd, Wrap64(x), x, s);
    SumForm(op, ops, rd, s);
  }

  lemma SumForm(op: Op, ops: seq<Operand>, rd: Reg, s: Regs)
    requires op in {ADD, SUB, MOV} && |ops| >= 2 && OpReg(ops[0]) == Some(rd)
    ensures var n := if |ops| >= 3 then 1 else 0;
            var v1, v2 := OperandVal(ops[n], s), OperandVal(ops[n + 1], s);
            DataEffect(Inst(op, ops), s) ==
            Effect(Some((rd, Wrap64(if op == ADD then v1 + v2 else if op == SUB then v1 - v2 else OperandVal(ops[1], s)))), None, None)
  {
    hide OperandVal, AddFlags, SubFlags, Wrap64;
    if op == MOV {
      WrapSmall(OperandVal(ops[1], s));
    }
  }

  function ProductOf(a: int, b: int): int { a * b }

  /** MUL, MADD and MSUB leave the product, and the addend plus or minus it, modulo the destination's width. */
  lemma ProductLeft(op: Op, rd: Reg, ops: seq<Operand>, s: Regs)
    requires op in {MUL, MADD, MSUB} && |ops| >= (if op == MUL then 3 else 4) && ops[0] == RegOp(rd)
    requires rd.X? || rd.W? || rd.SP?
    ensures var v1, v2, m := OperandVal(ops[1], s), OperandVal(ops[2], s), rd.Width().Modulus();
            Leaves(After(Inst(op, ops), s), s, rd,
                   (if op == MUL then v1 * v2 else if op == MADD then OperandVal(ops[3], s) + v1 * v2 else OperandVal(ops[3], s) - v1 * v2) % m)
  {
    hide OperandVal, Apply, Wrap64, DataEffect, Leaves;
    var v1, v2, w := OperandVal(ops[1], s), OperandVal(ops[2], s), rd.Width();
    if op == MUL {
      MulForm(rd, ops, s);
      WrapMod(ProductOf(v1, v2), w);
      LeavesValue(rd, Wrap64(ProductOf(v1, v2)), ProductOf(v1, v2), s);
    } else {
      MulAddLeft(op, rd, ops, s);
    }
  }

  lemma MulAddLeft(op: Op, rd: Reg, ops: seq<Operand>, s: Regs)
    requires op in {MADD, MSUB} && |ops| >= 4 && ops[0] == RegOp(rd) && (rd.X? || rd.W? || rd.SP?)
    ensures var p, v3 := ProductOf(OperandVal(ops[1], s), OperandVal(ops[2], s)), OperandVal(ops[3], s);
            Leaves(After(Inst(op, ops), s), s, rd, (if op == MADD then v3 + p else v3 - p) % rd.Width().Modulus())
  {
    hide OperandVal, Apply, Wrap64, DataEffect, Leaves, Narrow;
    var v1, v2, v3 := OperandVal(ops[1], s), OperandVal(ops[2], s), OperandVal(ops[3], s);
    var p, q := ProductOf(v1, v2), ProductOf(Narrow(v1, rd), Narrow(v2, rd));
    var x := if op == MADD then Narrow(v3, rd) + q else Narrow(v3, rd) - q;
    MulAddForm(op, rd, ops, s);
    WrapMod(x, rd.Width());
    NarrowProduct(v1, v2, v3, rd);
    LeavesValue(rd, Wrap64(x), if op == MADD then v3 + p else v3 - p, s);
  }

  lemma MulForm(rd: Reg, ops: seq<Operand>, s: Regs)
    requires |ops| >= 3 && ops[0] == RegOp(rd)
    ensures DataEffect(Inst(MUL, ops), s) == Effect(Some((rd, Wrap64(OperandVal(ops[1], s) * OperandVal(ops[2], s)))), None, None)
  {
    hide OperandVal, Wrap64;
  }

  lemma MulAddForm(op: Op, rd: Reg, ops: seq<Operand>, s: Regs)
    requires op in {MADD, MSUB} && |ops| >= 4 && ops[0] == RegOp(rd)
    ensures var n1, n2, n3 := Narrow(OperandVal(ops[1], s), rd), Narrow(OperandVal(ops[2], s), rd), Narrow(OperandVal(ops[3], s), rd);
            DataEffect(Inst(op, ops), s) == Effect(Some((rd, Wrap64(if op == MADD then n3 + n1 * n2 else n3 - n1 * n2))), None, None)
  {
    hide OperandVal, Wrap64, Narrow;
  }

  lemma NarrowProduct(v1: uint64, v2: uint64, v3: uint64, rd: Reg)
    requires rd.X? || rd.W? || rd.SP?
    ensures var n1, n2, n3, m := Narrow(v1, rd), Narrow(v2, rd), Narrow(v3, rd), rd.Width().Modulus();
            (n3 + n1 * n2) % m == (v3 + v1 * v2) % m && (n3 - n1 * n2) % m == (v3 - v1 * v2) % m
  {
    var m := rd.Width().Modulus();
    var n1, n2, n3 := Narrow(v1, rd), Narrow(v2, rd), Narrow(v3, rd);
    if rd.W? {
      ModMulLeft(v1, v2, m);
      ModMulLeft(v2, n1, m);
      assert (n1 * n2) % m == (v1 * v2) % m by {
        assert n1 * v2 == v2 * n1 && n2 * n1 == n1 * n2;
      }
      ModTwice(v3, m);
      SumCongruent(n3, n1 * n2, v1 * v2, m);
      SumCongruent(v1 * v2, n3, v3, m);
      SumCongruent(0 - v1 * v2, n3, v3, m);
      assert v1 * v2 + n3 == n3 + v1 * v2 && 0 - v1 * v2 + n3 == n3 - v1 * v2;
    }
  }

  /** The one quotient of SDIV that stops the host: the least value of the width divided by minus one. */
  lemma DivideStops(env: Env, s: State, rd: Reg, ops: seq<Operand>)
    requires Executes(env, s, Inst(SDIV, ops)) && |ops| >= 3 && ops[0] == RegOp(rd) && (rd.X? || rd.W?)
    ensures var w := rd.Width();
            var a, b := OperandVal(ops[1], s.ctx.regs) % w.Modulus(), OperandVal(ops[2], s.ctx.regs) % w.Modulus();
            if a == w.Half() && b == w.Modulus() - 1 then Step(env, s) == StepResult(s, Failed(DivideOverflow(s.ctx.pc)))
            else Step(env, s).outcome == Continue && (b == 0 ==> Leaves(Step(env, s).state.ctx.regs, s.ctx.regs, rd, 0))
  {
    hide OperandVal, Fetch, IsZeroLine, DataEffect, Apply;
    var w, regs := rd.Width(), s.ctx.regs;
    var a, b := OperandVal(ops[1], regs) % w.Modulus(), OperandVal(ops[2], regs) % w.Modulus();
    if !(a == w.Half() && b == w.Modulus() - 1) {
      DataStep(env, s, Inst(SDIV, ops));
      if b == 0 {
        DivideByZero(SDIV, rd, ops, regs);
        LeavesValue(rd, 0, 0, regs);
      }
    }
  }

  /** Division by zero, of either signedness, writes zero. */
  lemma DivideByZero(op: Op, rd: Reg, ops: seq<Operand>, s: Regs)
    requires op in {UDIV, SDIV} && |ops| >= 3 && ops[0] == RegOp(rd) && (rd.X? || rd.W?)
    requires OperandVal(ops[2], s) % rd.Width().Modulus() == 0
    ensures DataEffect(Inst(op, ops), s) == Effect(Some((rd, 0)), None, None)
  {
    hide OperandVal;
  }

  // ---------- conditional selection and comparison ----------

  /** The second source as each conditional select passes it on when its condition fails. */
  function Otherwise(op: Op, v: int): int {
    match op
    case CSINC => v + 1
    case CSINV => -1 - v
    case CSNEG => -v
    case _ => v
  }

  /** CSEL, CSINC, CSINV and CSNEG. */
  lemma SelectLeft(op: Op, ops: seq<Operand>, rd: Reg, s: Regs)
    requires op in {CSEL, CSINC, CSINV, CSNEG} && |ops| >= 4 && ops[3].CondOp? && Target(ops[0], rd)
    ensures var v1, v2, m := OperandVal(ops[1], s), OperandVal(ops[2], s), rd.Width().Modulus();
            Leaves(After(Inst(op, ops), s), s, rd,
                   (if EvalCond(ops[3].cond, GetFlags(s.pstate)) then v1 else Otherwise(op, v2)) % m)
  {
    hide OperandVal, Apply, EvalCond, GetFlags, DataEffect;
    var v1, v2, w := OperandVal(ops[1], s), OperandVal(ops[2], s), rd.Width();
    var x := if EvalCond(ops[3].cond, GetFlags(s.pstate)) then v1 else Otherwise(op, v2);
    SelectValue(op, ops, rd, s);
    WrapMod(x, w);
    LeavesValue(rd, Wrap64(x), x, s);
  }

  lemma SelectValue(op: Op, ops: seq<Operand>, rd: Reg, s: Regs)
    requires op in {CSEL, CSINC, CSINV, CSNEG} && |ops| >= 4 && ops[3].CondOp? && OpReg(ops[0]) == Some(rd)
    ensures DataEffect(Inst(op, ops), s) ==
            Effect(Some((rd, Wrap64(if EvalCond(ops[3].cond, GetFlags(s.pstate)) then OperandVal(ops[1], s)
                                    else Otherwise(op, OperandVal(ops[2], s))))), None, None)
  {
    hide OperandVal, EvalCond, GetFlags;
    WrapSmall(OperandVal(ops[1], s));
    WrapSmall(OperandVal(ops[2], s));
  }

  /** CSET and CSETM leave one or all ones when the condition holds, and zero otherwise. */
  lemma SetLeft(op: Op, ops: seq<Operand>, rd: Reg, s: Regs)
    requires op in {CSET, CSETM} && |ops| >= 2 && ops[1].CondOp? && Target(ops[0], rd)
    ensures Leaves(After(Inst(op, ops), s), s, rd,
                   if !EvalCond(ops[1].cond, GetFlags(s.pstate)) then 0 else if op == CSET then 1 else rd.Width().Modulus() - 1)
  {
    hide Apply, EvalCond, GetFlags, Leaves;
    var v: uint64 := if !EvalCond(ops[1].cond, GetFlags(s.pstate)) then 0 else if op == CSET then 1 else TWO64 - 1;
    LeavesValue(rd, v, v, s);
    assert DataEffect(Inst(op, ops), s) == Effect(Some((rd, v)), None, None);
  }

  /**
   A conditional compare whose condition holds sets the flags of CMP, or of CMN, of its operands at the first
   operand's width; otherwise N, Z, C and V are bits 3 to 0 of its immediate, for every immediate. Only the
   four flags change.
   */
  lemma ConditionalCompare(op: Op, ops: seq<Operand>, s: Regs)
    requires op in {CCMP, CCMN} && |ops| >= 4 && ops[3].CondOp?
    ensures var w, imm := OperandWidth(ops[0]), OperandVal(ops[2], s);
            var a, b := OperandVal(ops[0], s) % w.Modulus(), OperandVal(ops[1], s) % w.Modulus();
            var t := After(Inst(op, ops), s);
            var f := GetFlags(t.pstate);
            && t == s.(pstate := t.pstate) && t.pstate % 0x1000_0000 == s.pstate % 0x1000_0000
            && if !EvalCond(ops[3].cond, GetFlags(s.pstate)) then f == Flags(Bit(imm, 3), Bit(imm, 2), Bit(imm, 1), Bit(imm, 0))
               else if op == CCMP then forall c: Cond :: EvalCond(c, f) <==> Compares(c, a, b, w)
               else f == Flags(Signed((a + b) % w.Modulus(), w) < 0, (a + b) % w.Modulus() == 0, a + b >= w.Modulus(),
                               !InRange(Signed(a, w) + Signed(b, w), w))
  {
    hide OperandVal, EvalCond, GetFlags, SetFlags, OperandWidth, SubFlags, AddFlags, Compares, ImmFlags, DataEffect, Bit;
    var w := OperandWidth(ops[0]);
    CompareEffect(op, ops, s);
    if EvalCond(ops[3].cond, GetFlags(s.pstate)) {
      if op == CCMP {
        forall c: Cond
          ensures EvalCond(c, SubFlags(OperandVal(ops[0], s), OperandVal(ops[1], s), w)) <==>
                  Compares(c, OperandVal(ops[0], s) % w.Modulus(), OperandVal(ops[1], s) % w.Modulus(), w)
        {
          SubFlagsCompare(c, OperandVal(ops[0], s), OperandVal(ops[1], s), w);
        }
      } else {
        AddFlagsMean(OperandVal(ops[0], s), OperandVal(ops[1], s), w);
      }
    } else {
      ImmediateBits(OperandVal(ops[2], s));
    }
  }

  lemma CompareEffect(op: Op, ops: seq<Operand>, s: Regs)
    requires op in {CCMP, CCMN} && |ops| >= 4 && ops[3].CondOp?
    ensures var v1, v2, w := OperandVal(ops[0], s), OperandVal(ops[1], s), OperandWidth(ops[0]);
            DataEffect(Inst(op, ops), s) ==
            Effect(None, Some(if !EvalCond(ops[3].cond, GetFlags(s.pstate)) then ImmFlags(OperandVal(ops[2], s))
                              else if op == CCMP then SubFlags(v1, v2, w) else AddFlags(v1, v2, w)), None)
  {
    hide OperandVal, EvalCond, GetFlags, OperandWidth, SubFlags, AddFlags, ImmFlags;
  }

  lemma ImmediateBits(imm: uint64)
    ensures ImmFlags(imm) == Flags(Bit(imm, 3), Bit(imm, 2), Bit(imm, 1), Bit(imm, 0))
  {
    assert Pow2(3) == 8 && Pow2(2) == 4 && Pow2(1) == 2 && Pow2(0) == 1;
  }

  // ---------- system registers and addresses ----------

  /** What reading each system register gives; writing changes only the thread register. */
  lemma SystemRegisters(rt: Reg, name: SysName, source: Operand, s: Regs)
    requires rt.X?
    ensures Leaves(After(Inst(MRS, [RegOp(rt), SysReg(name)]), s), s, rt,
                   match name case TpidrEl0 => s.tpidr case Dczid => 16 case Cnt => 1_000_000_000 case OtherSys => 0)
    ensures After(Inst(MSR, [SysReg(name), source]), s) == if name == TpidrEl0 then s.(tpidr := OperandVal(source, s)) else s
  {
    hide OperandVal, Apply, DataEffect;
    SystemForms(rt, name, source, s);
    var v: uint64 := match name case TpidrEl0 => s.tpidr case Dczid => 16 case Cnt => 1_000_000_000 case OtherSys => 0;
    LeavesValue(rt, v, v, s);
  }

  lemma SystemForms(rt: Reg, name: SysName, source: Operand, s: Regs)
    ensures DataEffect(Inst(MRS, [RegOp(rt), SysReg(name)]), s) ==
            Effect(Some((rt, match name case TpidrEl0 => s.tpidr case Dczid => 16 case Cnt => 1_000_000_000 case OtherSys => 0)), None, None)
    ensures After(Inst(MSR, [SysReg(name), source]), s) == if name == TpidrEl0 then s.(tpidr := OperandVal(source, s)) else s
  {
    hide OperandVal;
  }

  /** ADR leaves its label; ADRP leaves the start of the label's 4096-byte page. */
  lemma AddressLeft(rd: Reg, target: Imm, s: Regs)
    requires rd.X?
    ensures Leaves(After(Inst(ADR, [RegOp(rd), Label(target)]), s), s, rd, target.ToU64())
    ensures var page := GetReg(rd, After(Inst(ADRP, [RegOp(rd), Label(target)]), s));
            && page <= target.ToU64() < page + 4096 && page % 4096 == 0
            && Leaves(After(Inst(ADRP, [RegOp(rd), Label(target)]), s), s, rd, page)
  {
  }

  // ---------- control flow ----------

  /**
   Where branches go from the step that executes them: B and BR to their operand's value; CBZ and CBNZ to the
   second operand exactly when the first is zero or is not; BL and BLR to their operand with the link register
   set; RET to X30. Memory is untouched.
   */
  lemma BranchStep(env: Env, s: State, op: Op, ops: seq<Operand>)
    requires Executes(env, s, Inst(op, ops)) && op in {B, BR, CBZ, CBNZ, BL, BLR, RET}
    requires |ops| >= (if op == RET then 0 else if op in {CBZ, CBNZ} then 2 else 1)
    ensures s.ctx.pc + 4 < TWO64
    ensures var regs, pc := s.ctx.regs, s.ctx.pc;
            var linked := regs.(x := regs.x[30 := pc + 4]);
            && (op == B || op == BR ==> Step(env, s) == StepResult(At(s, regs, OperandVal(ops[0], regs)), Continue))
            && (op == BL || op == BLR ==> Step(env, s) == StepResult(At(s, linked, OperandVal(ops[0], linked)), Continue))
            && (op == RET ==> Step(env, s) == StepResult(At(s, regs, regs.x[30]), Continue))
            && (op == CBZ || op == CBNZ ==>
                  var taken := (OperandVal(ops[0], regs) == 0) == (op == CBZ);
                  Step(env, s) == StepResult(At(s, regs, if taken then OperandVal(ops[1], regs) else pc + 4), Continue))
  {
    hide OperandVal, Control, Step, Executes;
    ControlStep(env, s, Inst(op, ops));
    if op in {CBZ, CBNZ} {
      ZeroBranch(op, ops, s.ctx.regs, s.ctx.pc);
    } else {
      PlainBranch(op, ops, s.ctx.regs, s.ctx.pc);
    }
  }

  lemma ControlStep(env: Env, s: State, i: Inst)
    requires Executes(env, s, i) && IsControl(i.op)
    ensures s.ctx.pc + 4 < TWO64
    ensures var j := Control(i, s.ctx.regs, s.ctx.pc);
            Step(env, s) == StepResult(At(s, j.regs, j.next), Continue)
  {
    hide Fetch, IsZeroLine, DataEffect, Control, OperandVal;
    assert !IsData(i.op) && !VectorForm(i) && !VectorPair(i);
  }

  lemma PlainBranch(op: Op, ops: seq<Operand>, regs: Regs, pc: uint64)
    requires pc + 4 < TWO64 && op in {B, BR, BL, BLR, RET} && (op != RET ==> |ops| >= 1)
    ensures var linked := regs.(x := regs.x[30 := pc + 4]);
            Control(Inst(op, ops), regs, pc) ==
            if op == RET then Jump(regs, regs.x[30])
            else if op in {B, BR} then Jump(regs, OperandVal(ops[0], regs)) else Jump(linked, OperandVal(ops[0], linked))
  {
    hide OperandVal;
  }

  lemma ZeroBranch(op: Op, ops: seq<Operand>, regs: Regs, pc: uint64)
    requires pc + 4 < TWO64 && op in {CBZ, CBNZ} && |ops| >= 2
    ensures Control(Inst(op, ops), regs, pc) ==
            Jump(regs, if (OperandVal(ops[0], regs) == 0) == (op == CBZ) then OperandVal(ops[1], regs) else pc + 4)
  {
    hide OperandVal;
  }

  /** A branch without its operands goes on at the next word. */
  lemma BareBranchStep(env: Env, s: State, i: Inst)
    requires Executes(env, s, i) && IsControl(i.op) && i.op != RET
    requires |i.operands| < (if i.op in {CBZ, CBNZ} then 2 else 1)
    ensures s.ctx.pc + 4 < TWO64
    ensures Step(env, s) == StepResult(At(s, s.ctx.regs, s.ctx.pc + 4), Continue)
  {
    hide OperandVal, EvalCond, GetFlags, Step, Executes;
    ControlStep(env, s, i);
  }

  /** A conditional branch goes to its operand's value when its condition holds of the flags, and otherwise to the next word. */
  lemma ConditionalBranchStep(env: Env, s: State, c: BranchCond, ops: seq<Operand>)
    requires Executes(env, s, Inst(BCOND(c), ops)) && |ops| >= 1
    ensures s.ctx.pc + 4 < TWO64
    ensures var regs := s.ctx.regs;
            Step(env, s) ==
            StepResult(At(s, regs, if EvalCond(c, GetFlags(regs.pstate)) then OperandVal(ops[0], regs) else s.ctx.pc + 4), Continue)
  {
    hide OperandVal, EvalCond, GetFlags, Step, Executes;
    ControlStep(env, s, Inst(BCOND(c), ops));
  }

  // ---------- system calls and cache zeroing ----------

  /** A system call keeps what the handler left, stops on its error or on exit, and otherwise goes on at the next word whatever pc the handler set. */
  lemma SystemCall(env: Env, s: State, ops: seq<Operand>)
    requires Executes(env, s, Inst(SVC, ops))
    ensures s.ctx.pc + 4 < TWO64
    ensures var h, r := env.sys(s.ctx, s.mem), Step(env, s);
            && r.state.mem == h.mem && r.state.ctx.(pc := h.ctx.pc) == h.ctx
            && (h.error.Some? ==> r.outcome == Failed(h.error.value) && r.state.ctx.pc == h.ctx.pc)
            && (h.error.None? && h.ctx.exited ==> r.outcome == Exited && r.state.ctx.pc == h.ctx.pc)
            && (h.error.None? && !h.ctx.exited ==> r.outcome == Continue && r.state.ctx.pc == s.ctx.pc + 4)
  {
    hide Fetch, IsZeroLine, DataEffect;
  }

  /** Instructions outside the integer core leave exactly what their own arm leaves, its error included. */
  lemma OutsideCore(env: Env, s: State, i: Inst)
    requires Executes(env, s, i)
    requires var ops := i.operands;
             || i.op.FP? || i.op.OtherOp?
             || (i.op in {ADD, ADDS, MOV, ORR, EOR, AND, ANDS, TST} && |ops| >= 2 && NamesVec(ops[0]))
             || (i.op == LSL && |ops| >= 4)
             || (i.op in {STP, LDP} && |ops| >= 3 && NamesVec(ops[0]) && NamesVec(ops[1]))
    ensures var h := env.other(i, s.ctx, s.mem);
            Step(env, s) == StepResult(State(h.ctx, h.mem), if h.error.Some? then Failed(h.error.value) else Continue)
  {
    hide Fetch, IsZeroLine, DataEffect;
  }

  /**
   The zeroing instruction clears the aligned 64 bytes around the address in its register when they are mapped,
   and in any case changes no other byte and no register, and goes on at the next word. Register 31 stands for zero.
   */
  lemma ZeroLineStep(env: Env, s: State, word: uint32)
    requires !s.ctx.exited && Fetch(s.mem, s.ctx.pc) == Some(word) && 0xd50b_7400 <= word < 0xd50b_7600
    ensures s.ctx.pc + 4 < TWO64
    ensures var a := if word % 32 == 31 then 0 else s.ctx.regs.x[word % 32];
            var line, r := a / 64 * 64, Step(env, s);
            && r.outcome == Continue && r.state.ctx == s.ctx.(pc := s.ctx.pc + 4)
            && r.state.mem == s.mem.(segments := r.state.mem.segments)
            && (forall x: nat :: !(line <= x < line + 64) ==> ByteAt(r.state.mem.segments, x) == ByteAt(s.mem.segments, x))
            && (Mapped(s.mem.segments, line, 64) ==> forall x: nat :: line <= x < line + 64 ==> ByteAt(r.state.mem.segments, x) == Some(0))
  {
    hide IsZeroLine, IsHint, Fetch, WriteSpec, Exec, ByteAt, Step, Mapped, MappedPrefix, Zeros;
    ZeroLineIs(env, s, word);
    var a: int := if word % 32 == 31 then 0 else s.ctx.regs.x[word % 32];
    ZeroedLine(s.mem.segments, a / 64 * 64);
  }

  lemma ZeroLineIs(env: Env, s: State, word: uint32)
    requires !s.ctx.exited && Fetch(s.mem, s.ctx.pc) == Some(word) && 0xd50b_7400 <= word < 0xd50b_7600
    ensures s.ctx.pc + 4 < TWO64
    ensures var a := if word % 32 == 31 then 0 else s.ctx.regs.x[word % 32];
            Step(env, s) ==
            StepResult(s.(ctx := s.ctx.(pc := s.ctx.pc + 4), mem := s.mem.(segments := WriteSpec(s.mem.segments, a / 64 * 64, Zeros(64)).segments)), Continue)
  {
    hide IsZeroLine, IsHint, Fetch, WriteSpec, Exec, ByteAt;
    SystemWords(word);
    var a: int := if word % 32 == 31 then 0 else s.ctx.regs.x[word % 32];
    assert a - a % 64 == a / 64 * 64;
  }

  lemma ZeroedLine(m: seq<Segment>, line: nat)
    ensures var m' := WriteSpec(m, line, Zeros(64)).segments;
            && (forall x: nat :: !(line <= x < line + 64) ==> ByteAt(m', x) == ByteAt(m, x))
            && (Mapped(m, line, 64) ==> forall x: nat :: line <= x < line + 64 ==> ByteAt(m', x) == Some(0))
  {
    hide WriteSpec, ByteAt;
    WriteExact(m, line, Zeros(64));
  }
}
