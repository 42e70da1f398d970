/** What generated code does to the raw context, as an effect on the register file. */
module GeneratedCode {
  import opened Words
  import opened Machine
  import opened ContextLayout
  import opened Ir
  import opened Translator

  // ---------- simulation of the raw context ----------

  /** After `code`, the raw context holds image `im`. */
  predicate Holds(fp: Fp, code: seq<Ir>, raw: RawContext, im: Image) {
    RunIr(fp, code, raw).raw == Layout(im)
  }

  function ValueOf(fp: Fp, code: seq<Ir>, raw: RawContext, v: nat): uint64 {
    Val(RunIr(fp, code, raw), v)
  }

  /** `more` continues `code` without changing any value that `code` produced. */
  predicate Extends(fp: Fp, code: seq<Ir>, more: seq<Ir>, raw: RawContext) {
    |code| <= |more| && forall v: nat :: v < |code| ==> ValueOf(fp, more, raw, v) == ValueOf(fp, code, raw, v)
  }

  lemma PushSim(fp: Fp, code: seq<Ir>, i: Ir, raw: RawContext, im: Image)
    requires Holds(fp, code, raw, im) && !i.Store?
    ensures var e := Push(code, i);
            && Holds(fp, e.code, raw, im) && Extends(fp, code, e.code, raw) && e.val < |e.code|
            && ValueOf(fp, e.code, raw, e.val) == Result(fp, RunIr(fp, code, raw), i)
  {
    hide Layout, Result;
    RunSnoc(fp, code, i, raw);
  }

  lemma StoreSim(fp: Fp, code: seq<Ir>, v: nat, w: nat, raw: RawContext, im: Image)
    requires Holds(fp, code, raw, im) && w < WORDS
    ensures Holds(fp, code + [Store(v, 8 * w)], raw, SetWord(im, w, ValueOf(fp, code, raw, v)))
    ensures Extends(fp, code, code + [Store(v, 8 * w)], raw)
  {
    RunSnoc(fp, code, Store(v, 8 * w), raw);
    StoreWord(im, w, ValueOf(fp, code, raw, v));
  }

  lemma LoadSim(fp: Fp, code: seq<Ir>, w: nat, raw: RawContext, im: Image)
    requires Holds(fp, code, raw, im) && w < WORDS
    ensures var e := Push(code, Load(8 * w));
            && Holds(fp, e.code, raw, im) && Extends(fp, code, e.code, raw) && e.val < |e.code|
            && ValueOf(fp, e.code, raw, e.val) == WordAt(im, w)
  {
    PushSim(fp, code, Load(8 * w), raw, im);
    LoadWord(im, w);
  }

  lemma LowWord(v: uint64)
    ensures And(v, 0xffff_ffff) == v % TWO32
  {
    Pow2Widths();
    AndMask(v, 32);
  }

  lemma MaskSim(fp: Fp, code: seq<Ir>, v: nat, raw: RawContext, im: Image)
    requires Holds(fp, code, raw, im) && v < |code|
    ensures var mask := Push(code, Iconst(0xffff_ffff));
            var e := Push(mask.code, Band(v, mask.val));
            && Holds(fp, e.code, raw, im) && Extends(fp, code, e.code, raw) && e.val < |e.code|
            && ValueOf(fp, e.code, raw, e.val) == ValueOf(fp, code, raw, v) % TWO32
  {
    hide RunIr, Layout;
    var mask := Push(code, Iconst(0xffff_ffff));
    PushSim(fp, code, Iconst(0xffff_ffff), raw, im);
    PushSim(fp, mask.code, Band(v, mask.val), raw, im);
    LowWord(ValueOf(fp, code, raw, v));
  }

  /** A general register, the stack pointer or a zero register; not WSP and not a vector register. */
  predicate Gpr(r: Reg) { !r.WSP? && !r.Vec? }

  /** A register as generated code reads it: as the interpreter does, but for WSP and vector names. */
  function RawRead(r: Reg, s: Regs): uint64 {
    if r.WSP? then s.sp % TWO32 else if r.Vec? then 0 else GetReg(r, s)
  }

  /** A register write of generated code: WSP writes the stack pointer, which the interpreter does not. */
  function RawWrite(r: Reg, val: uint64, s: Regs): Regs {
    if r.WSP? then s.(sp := val % TWO32) else if r.Vec? then s else SetReg(r, val, s)
  }

  /**
   A register load from the raw context reads the register file: 31 distinct registers and the stack
   pointer at their own offsets, zero registers as 0, and 32-bit names zero-extended.
   */
  lemma LoadRegSim(fp: Fp, code: seq<Ir>, r: Reg, raw: RawContext, im: Image)
    requires Holds(fp, code, raw, im)
    ensures var e := LoadReg(code, r);
            && Holds(fp, e.code, raw, im) && Extends(fp, code, e.code, raw) && e.val < |e.code|
            && ValueOf(fp, e.code, raw, e.val) == RawRead(r, im.regs)
  {
    hide RunIr, Layout;
    if IsZero(r) || r.Vec? {
      PushSim(fp, code, Iconst(0), raw, im);
    } else {
      var w := Offset(r).value / 8;
      LoadSim(fp, code, w, raw, im);
      var v := Push(code, Load(8 * w));
      if IsNarrow(r) {
        MaskSim(fp, v.code, v.val, raw, im);
      }
    }
  }

  /** A register store into the raw context is one register write, and touches nothing else. */
  lemma StoreRegSim(fp: Fp, code: seq<Ir>, r: Reg, v: nat, raw: RawContext, im: Image)
    requires Holds(fp, code, raw, im) && v < |code|
    ensures Holds(fp, StoreReg(code, r, v), raw, im.(regs := RawWrite(r, ValueOf(fp, code, raw, v), im.regs)))
    ensures Extends(fp, code, StoreReg(code, r, v), raw)
  {
    hide RunIr, Layout;
    if !IsZero(r) && !r.Vec? {
      var w := Offset(r).value / 8;
      if IsNarrow(r) {
        MaskSim(fp, code, v, raw, im);
        var mask := Push(code, Iconst(0xffff_ffff));
        var low := Push(mask.code, Band(v, mask.val));
        StoreSim(fp, low.code, low.val, w, raw, im);
      } else {
        StoreSim(fp, code, v, w, raw, im);
      }
    }
  }

  lemma LoadVecSim(fp: Fp, code: seq<Ir>, r: Reg, raw: RawContext, im: Image)
    requires Holds(fp, code, raw, im) && r.Vec?
    ensures var e := LoadVec(code, r);
            && Holds(fp, e.code, raw, im) && Extends(fp, code, e.code, raw) && e.val < |e.code|
            && ValueOf(fp, e.code, raw, e.val) == im.regs.v[r.vn].lo
  {
    hide RunIr, Layout;
    var w := 34 + 2 * r.vn;
    assert w / 2 - 17 == r.vn;
    LoadSim(fp, code, w, raw, im);
  }

  /** A vector store writes the low half and clears the high half. */
  lemma StoreVecSim(fp: Fp, code: seq<Ir>, r: Reg, v: nat, raw: RawContext, im: Image)
    requires Holds(fp, code, raw, im) && r.Vec? && v < |code|
    ensures var x := ValueOf(fp, code, raw, v);
            Holds(fp, StoreVec(code, r, v), raw, im.(regs := im.regs.(v := im.regs.v[r.vn := VecReg(x, 0)])))
    ensures Extends(fp, code, StoreVec(code, r, v), raw)
  {
    hide RunIr, Layout;
    var w, x := 34 + 2 * r.vn, ValueOf(fp, code, raw, v);
    assert w / 2 - 17 == r.vn && (w + 1) / 2 - 17 == r.vn;
    StoreSim(fp, code, v, w, raw, im);
    var c1, im1 := code + [Store(v, 8 * w)], SetWord(im, w, x);
    PushSim(fp, c1, Iconst(0), raw, im1);
    var zero := Push(c1, Iconst(0));
    StoreSim(fp, zero.code, zero.val, w + 1, raw, im1);
    var im2 := SetWord(im1, w + 1, 0);
    assert im2.regs.v == im.regs.v[r.vn := VecReg(x, 0)];
  }

  /** A value carried past one more instruction. */
  lemma CarrySim(fp: Fp, code: seq<Ir>, more: seq<Ir>, raw: RawContext, v: nat)
    requires Extends(fp, code, more, raw) && v < |code|
    ensures v < |more| && ValueOf(fp, more, raw, v) == ValueOf(fp, code, raw, v)
  {
  }

  lemma ConstSim(fp: Fp, code: seq<Ir>, c: uint64, raw: RawContext, im: Image)
    requires Holds(fp, code, raw, im)
    ensures var e := Push(code, Iconst(c));
            && Holds(fp, e.code, raw, im) && Extends(fp, code, e.code, raw) && e.val < |e.code|
            && ValueOf(fp, e.code, raw, e.val) == c
  {
    hide RunIr, Layout;
    PushSim(fp, code, Iconst(c), raw, im);
  }

  // ---------- data instructions ----------

  /** A source operand as generated code reads it: no shift is applied, to a register or a constant. */
  function JitValue(o: Operand, labels: bool, s: Regs): uint64 {
    match o
    case RegOp(r) => RawRead(r, s)
    case QualReg(r) => RawRead(r, s)
    case ShiftReg(r, _) => RawRead(r, s)
    case ImmOp(imm, _) => imm.ToU64()
    case Label(imm) => if labels then imm.ToU64() else 0
    case _ => 0
  }

  /** Operand `k`, or 0 where there is none. */
  function SourceAt(ops: seq<Operand>, k: nat, labels: bool, s: Regs): uint64 {
    if k < |ops| then JitValue(ops[k], labels, s) else 0
  }

  /** A general destination or first source. */
  predicate PlainGpr(o: Operand) { (o.RegOp? || o.QualReg?) && Gpr(o.reg) }

  predicate PlainVec(o: Operand) { (o.RegOp? || o.QualReg?) && o.reg.Vec? }

  /** What an emitted two-source operation computes. */
  function BinaryValue(op: Op, a: uint64, b: uint64): uint64 {
    match op
    case ADD => Wrap64(a + b)
    case SUB => Wrap64(a - b)
    case AND => And64(a, b)
    case EOR => Xor64(a, b)
    case LSL => ShiftLeft(a, b % 64, W64)
    case LSR => ShiftRight(a, b % 64)
    case _ => ShiftRightArith(a, b % 64, W64)
  }

  predicate IsBinary(op: Op) { op in {ADD, SUB, AND, EOR, LSL, LSR, ASR} }

  /** Whether the compiler finds the operands it needs; if not it skips the instruction. */
  predicate EmitsCode(i: Inst) {
    var ops := i.operands;
    if IsBinary(i.op) then RegAt(ops, 0).Some? && RegAt(ops, 1).Some? && (i.op in {ADD, SUB} ==> |ops| >= 3)
    else match i.op
      case MOV => |ops| >= 2 && RegAt(ops, 0).Some?
      case ORR => |ops| >= 2 && RegAt(ops, 0).Some?
      case ADRP => |ops| >= 2 && RegAt(ops, 0).Some?
      case MRS => RegAt(ops, 0).Some?
      case MSR => RegAt(ops, 1).Some?
      case FMOV => RegAt(ops, 0).Some? && RegAt(ops, 1).Some? && (RegAt(ops, 0).value.Vec? || RegAt(ops, 1).value.Vec?)
      case _ => true
  }

  /** The data opcodes of the compiler's list, whatever their operands; ADRP needs its label. */
  predicate DataForm(i: Inst) {
    && (IsBinary(i.op) || i.op in {NOP, MOV, ORR, ADRP, MRS, MSR, FMOV})
    && (i.op == ADRP && |i.operands| >= 2 ==> i.operands[1].Label?)
  }

  /** The registers after the generated code of a data instruction. */
  function JitRegs(i: Inst, s: Regs): Regs
    requires DataForm(i)
  {
    var ops := i.operands;
    if !EmitsCode(i) then s
    else if IsBinary(i.op) then
      RawWrite(RegAt(ops, 0).value,
               BinaryValue(i.op, RawRead(RegAt(ops, 1).value, s), SourceAt(ops, 2, i.op in {ADD, SUB}, s)), s)
    else match i.op
      case MOV => RawWrite(RegAt(ops, 0).value, SourceAt(ops, 1, true, s), s)
      case ORR => RawWrite(RegAt(ops, 0).value, SourceAt(ops, 1, true, s), s)
      case ADRP => RawWrite(RegAt(ops, 0).value, ops[1].imm.ToU64(), s)
      case MRS => RawWrite(RegAt(ops, 0).value, s.tpidr, s)
      case MSR => s.(tpidr := RawRead(RegAt(ops, 1).value, s))
      case FMOV => FloatMoveRegs(RegAt(ops, 0).value, RegAt(ops, 1).value, s)
      case _ => s
  }

  /** A move to or from a vector register copies all of its low eight bytes, whatever the name says. */
  function FloatMoveRegs(rd: Reg, rn: Reg, s: Regs): Regs {
    var x := if rn.Vec? then s.v[rn.vn].lo else RawRead(rn, s);
    if rd.Vec? then s.(v := s.v[rd.vn := VecReg(x, 0)]) else RawWrite(rd, x, s)
  }

  /** The generated code of `i`, appended to `code`, leaves the raw context holding `s`. */
  predicate Emits(fp: Fp, code: seq<Ir>, i: Inst, pc: uint64, raw: RawContext, im: Image, s: Regs)
    requires pc + 4 < TWO64
  {
    var t := Translate(code, i, pc);
    t.kind == (if EmitsCode(i) then Emitted else Inert) && Holds(fp, t.code, raw, im.(regs := s))
  }

  lemma LoadSourceSim(
    fp: Fp, code: seq<Ir>, ops: seq<Operand>, k: nat, labels: bool, raw: RawContext, im: Image)
    requires Holds(fp, code, raw, im)
    ensures var e := LoadSource(code, ops, k, labels);
            && Holds(fp, e.code, raw, im) && Extends(fp, code, e.code, raw) && e.val < |e.code|
            && ValueOf(fp, e.code, raw, e.val) == SourceAt(ops, k, labels, im.regs)
  {
    hide RunIr, Layout, LoadReg, StepIr, Push, RawRead;
    if RegAt(ops, k).Some? {
      LoadRegSim(fp, code, RegAt(ops, k).value, raw, im);
    } else {
      ConstSim(fp, code, ImmAt(ops, k, labels), raw, im);
    }
  }

  lemma BinaryCode(fp: Fp, code: seq<Ir>, i: Inst, pc: uint64, raw: RawContext, im: Image)
    requires pc + 4 < TWO64 && Holds(fp, code, raw, im) && EmitsCode(i) && IsBinary(i.op)
    ensures Emits(fp, code, i, pc, raw, im, JitRegs(i, im.regs))
  {
    hide RunIr, Layout, LoadReg, StoreReg, LoadSource, RawRead, RawWrite, JitValue, RegAt, BinaryValue, BinaryIr, SourceAt;
    var op, ops, s := i.op, i.operands, im.regs;
    var labels := op in {ADD, SUB};
    var rd, rn := RegAt(ops, 0).value, RegAt(ops, 1).value;
    var n := LoadReg(code, rn);
    LoadRegSim(fp, code, rn, raw, im);
    var m := LoadSource(n.code, ops, 2, labels);
    LoadSourceSim(fp, n.code, ops, 2, labels, raw, im);
    CarrySim(fp, n.code, m.code, raw, n.val);
    BinaryPush(fp, m.code, op, n.val, m.val, raw, im);
    var r := Push(m.code, BinaryIr(op, n.val, m.val));
    StoreRegSim(fp, r.code, rd, r.val, raw, im);
  }

  lemma BinaryPush(fp: Fp, code: seq<Ir>, op: Op, a: nat, b: nat, raw: RawContext, im: Image)
    requires Holds(fp, code, raw, im) && IsBinary(op)
    ensures var e := Push(code, BinaryIr(op, a, b));
            && Holds(fp, e.code, raw, im) && e.val < |e.code|
            && ValueOf(fp, e.code, raw, e.val) == BinaryValue(op, ValueOf(fp, code, raw, a), ValueOf(fp, code, raw, b))
  {
    hide RunIr, Layout, Result, BinaryValue;
    PushSim(fp, code, BinaryIr(op, a, b), raw, im);
    BinaryResult(fp, RunIr(fp, code, raw), op, a, b);
  }

  lemma BinaryResult(fp: Fp, st: IrState, op: Op, a: nat, b: nat)
    requires IsBinary(op)
    ensures !BinaryIr(op, a, b).Store?
    ensures Result(fp, st, BinaryIr(op, a, b)) == BinaryValue(op, Val(st, a), Val(st, b))
  {
    hide Val, Wrap64, And64, Xor64, ShiftLeft, ShiftRight, ShiftRightArith;
  }

  lemma MoveCode(fp: Fp, code: seq<Ir>, i: Inst, pc: uint64, raw: RawContext, im: Image)
    requires pc + 4 < TWO64 && Holds(fp, code, raw, im) && EmitsCode(i) && i.op in {MOV, ORR}
    ensures Emits(fp, code, i, pc, raw, im, JitRegs(i, im.regs))
  {
    hide RunIr, Layout, LoadReg, StoreReg, LoadSource, RawRead, RawWrite, JitValue, RegAt, SourceAt;
    var ops := i.operands;
    LoadSourceSim(fp, code, ops, 1, true, raw, im);
    var v := LoadSource(code, ops, 1, true);
    StoreRegSim(fp, v.code, RegAt(ops, 0).value, v.val, raw, im);
  }

  lemma SystemCode(fp: Fp, code: seq<Ir>, i: Inst, pc: uint64, raw: RawContext, im: Image)
    requires pc + 4 < TWO64 && Holds(fp, code, raw, im) && DataForm(i) && EmitsCode(i) && i.op in {ADRP, MRS, MSR}
    ensures Emits(fp, code, i, pc, raw, im, JitRegs(i, im.regs))
  {
    hide RunIr, Layout, LoadReg, StoreReg, RawRead, RawWrite, RegAt;
    var ops := i.operands;
    match i.op {
      case ADRP =>
        var page := Push(code, Iconst(ops[1].imm.ToU64()));
        ConstSim(fp, code, ops[1].imm.ToU64(), raw, im);
        StoreRegSim(fp, page.code, RegAt(ops, 0).value, page.val, raw, im);
      case MRS =>
        LoadSim(fp, code, 98, raw, im);
        var t := Push(code, Load(TPIDR_OFFSET));
        StoreRegSim(fp, t.code, RegAt(ops, 0).value, t.val, raw, im);
      case MSR =>
        var rt := RegAt(ops, 1).value;
        LoadRegSim(fp, code, rt, raw, im);
        var t := LoadReg(code, rt);
        StoreSim(fp, t.code, t.val, 98, raw, im);
    }
  }

  lemma FloatMoveCode(fp: Fp, code: seq<Ir>, i: Inst, pc: uint64, raw: RawContext, im: Image)
    requires pc + 4 < TWO64 && Holds(fp, code, raw, im) && EmitsCode(i) && i.op == FMOV
    ensures Emits(fp, code, i, pc, raw, im, JitRegs(i, im.regs))
  {
    hide RunIr, Layout, LoadReg, StoreReg, LoadVec, StoreVec, RawRead, RawWrite, Extends, RegAt;
    var rd, rn := RegAt(i.operands, 0).value, RegAt(i.operands, 1).value;
    if rn.Vec? {
      LoadVecSim(fp, code, rn, raw, im);
      var v := LoadVec(code, rn);
      if rd.Vec? {
        StoreVecSim(fp, v.code, rd, v.val, raw, im);
      } else {
        StoreRegSim(fp, v.code, rd, v.val, raw, im);
      }
    } else {
      LoadRegSim(fp, code, rn, raw, im);
      var v := LoadReg(code, rn);
      StoreVecSim(fp, v.code, rd, v.val, raw, im);
    }
  }

  lemma NothingEmitted(code: seq<Ir>, i: Inst, pc: uint64)
    requires pc + 4 < TWO64 && DataForm(i) && (!EmitsCode(i) || i.op == NOP)
    ensures Translate(code, i, pc) == Translation(code, if EmitsCode(i) then Emitted else Inert)
  {
    hide LoadReg, StoreReg, LoadVec, StoreVec, LoadSource, RegAt;
  }

  /**
   Whether or not it matches the interpreter, the generated code of every data instruction acts on the raw
   bytes as one register-file update, and touches nothing else there.
   */
  lemma DataCode(fp: Fp, code: seq<Ir>, i: Inst, pc: uint64, raw: RawContext, im: Image)
    requires pc + 4 < TWO64 && Holds(fp, code, raw, im) && DataForm(i)
    ensures Emits(fp, code, i, pc, raw, im, JitRegs(i, im.regs))
  {
    hide RunIr, Layout, Translate, RegAt, RawWrite, RawRead;
    if !EmitsCode(i) || i.op == NOP {
      NothingEmitted(code, i, pc);
    } else if IsBinary(i.op) {
      BinaryCode(fp, code, i, pc, raw, im);
    } else if i.op in {MOV, ORR} {
      MoveCode(fp, code, i, pc, raw, im);
    } else if i.op in {ADRP, MRS, MSR} {
      SystemCode(fp, code, i, pc, raw, im);
    } else {
      FloatMoveCode(fp, code, i, pc, raw, im);
    }
  }

  // ---------- floating point ----------

  /** The low half of a vector register; other names read as 0 here. */
  function LowHalf(r: Reg, s: Regs): uint64 { if r.Vec? then s.v[r.vn].lo else 0 }

  /**
   The generated code of the four arithmetic instructions applies the host's operation to the low halves of its
   first and second source, in that order, writes the result to the destination's low half and clears the high
   half; with a destination that is not a vector register it changes nothing.
   */
  lemma FloatCode(fp: Fp, code: seq<Ir>, f: FpOp, ops: seq<Operand>, pc: uint64, raw: RawContext, im: Image)
    requires pc + 4 < TWO64 && Holds(fp, code, raw, im)
    requires RegAt(ops, 0).Some? && RegAt(ops, 1).Some? && RegAt(ops, 2).Some?
    ensures var t, s := Translate(code, Inst(FP(f), ops), pc), im.regs;
            var d, n, m := RegAt(ops, 0).value, RegAt(ops, 1).value, RegAt(ops, 2).value;
            && t.kind == Emitted
            && Holds(fp, t.code, raw,
                     if d.Vec? then im.(regs := s.(v := s.v[d.vn := VecReg(fp(f, LowHalf(n, s), LowHalf(m, s)), 0)])) else im)
  {
    hide RunIr, Layout, LoadVec, StoreVec, RegAt, Extends, LowHalf, Translate;
    var d, n, m := RegAt(ops, 0).value, RegAt(ops, 1).value, RegAt(ops, 2).value;
    var vn := LoadVec(code, n);
    LoadLowHalf(fp, code, n, raw, im);
    var vm := LoadVec(vn.code, m);
    LoadLowHalf(fp, vn.code, m, raw, im);
    CarrySim(fp, vn.code, vm.code, raw, vn.val);
    FloatPush(fp, vm.code, f, vn.val, vm.val, raw, im);
    var r := Push(vm.code, Fbin(f, vn.val, vm.val));
    FloatForm(code, f, ops, pc);
    if d.Vec? {
      StoreVecSim(fp, r.code, d, r.val, raw, im);
    } else {
      assert StoreVec(r.code, d, r.val) == r.code by { NoVector(r.code, d, r.val); }
    }
  }

  lemma FloatForm(code: seq<Ir>, f: FpOp, ops: seq<Operand>, pc: uint64)
    requires pc + 4 < TWO64 && RegAt(ops, 0).Some? && RegAt(ops, 1).Some? && RegAt(ops, 2).Some?
    ensures var n := LoadVec(code, RegAt(ops, 1).value);
            var m := LoadVec(n.code, RegAt(ops, 2).value);
            var r := Push(m.code, Fbin(f, n.val, m.val));
            Translate(code, Inst(FP(f), ops), pc) == Translation(StoreVec(r.code, RegAt(ops, 0).value, r.val), Emitted)
  {
    hide LoadVec, StoreVec, RegAt;
  }

  lemma FloatPush(fp: Fp, code: seq<Ir>, f: FpOp, a: nat, b: nat, raw: RawContext, im: Image)
    requires Holds(fp, code, raw, im)
    ensures var e := Push(code, Fbin(f, a, b));
            && Holds(fp, e.code, raw, im) && e.val < |e.code|
            && ValueOf(fp, e.code, raw, e.val) == fp(f, ValueOf(fp, code, raw, a), ValueOf(fp, code, raw, b))
  {
    hide RunIr, Layout;
    PushSim(fp, code, Fbin(f, a, b), raw, im);
  }

  lemma NoVector(code: seq<Ir>, r: Reg, val: nat)
    requires !r.Vec?
    ensures StoreVec(code, r, val) == code
  {
  }

  lemma LoadLowHalf(fp: Fp, code: seq<Ir>, r: Reg, raw: RawContext, im: Image)
    requires Holds(fp, code, raw, im)
    ensures var e := LoadVec(code, r);
            && Holds(fp, e.code, raw, im) && Extends(fp, code, e.code, raw) && e.val < |e.code|
            && ValueOf(fp, e.code, raw, e.val) == LowHalf(r, im.regs)
  {
    hide RunIr, Layout;
    if r.Vec? {
      LoadVecSim(fp, code, r, raw, im);
    } else {
      ConstSim(fp, code, 0, raw, im);
    }
  }
}
