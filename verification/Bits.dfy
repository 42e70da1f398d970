/** What single bits of a result are, for the bitwise operations, shifts, extensions and fields, and for the instructions made of them. */
module Bits {
  import opened Words
  import opened BitFacts
  import opened Machine
  import opened Alu
  import opened Bitfields

  // ---------- shifts and sign extension ----------

  function Least(a: int, b: int): int { if a < b then a else b }

  lemma LeftBits(a: nat, n: nat, w: Width, k: nat)
    ensures Bit(ShiftLeft(a, n, w), k) <==> n <= k < w.Bits() && Bit(a, k - n)
  {
    hide Bit, Pow2;
    WidthPowers(w);
    ShiftedUpBits(a, n, k);
    RemainderBits(a * Pow2(n), w.Bits(), k);
  }

  /** A value below 2^n with all the bits from n to m set on top of it. */
  lemma OnesAbove(f: nat, n: nat, m: nat, k: nat)
    requires n <= m && f < Pow2(n)
    ensures f + Pow2(m) - Pow2(n) >= 0
    ensures Bit(f + Pow2(m) - Pow2(n), k) <==> if k < n then Bit(f, k) else k < m
  {
    hide Bit, Pow2;
    Pow2Add(m - n, n);
    var h := Pow2(m - n) - 1;
    assert h * Pow2(n) == Pow2(m) - Pow2(n);
    JoinBits(f, h, n, k);
    OnesBits(m - n, if k >= n then k - n else 0);
  }

  lemma ArithBits(a: nat, n: nat, w: Width, k: nat)
    requires a < w.Modulus() && n < w.Bits()
    ensures Bit(ShiftRightArith(a, n, w), k) <==> k < w.Bits() && Bit(a, Least(n + k, w.Bits() - 1))
  {
    hide Bit, Pow2, ShiftRight;
    KeptBits(a, n, w);
    WidthPowers(w);
    var f := ShiftRight(a, n);
    SignBit(a, w);
    Pow2Add(w.Bits() - n, n);
    Pow2Monotone(w.Bits() - n, w.Bits());
    RightBits(a, n, k);
    if a >= w.Half() {
      OnesAbove(f, w.Bits() - n, w.Bits(), k);
      assert ShiftRightArith(a, n, w) == f + Pow2(w.Bits()) - Pow2(w.Bits() - n) by {
        ModAddMultiple(f - Pow2(w.Bits() - n), 1, w.Modulus());
        DivModUnique(f + w.Modulus() - Pow2(w.Bits() - n), w.Modulus(), 0, f + w.Modulus() - Pow2(w.Bits() - n));
      }
    } else {
      assert ShiftRightArith(a, n, w) == f by { DivModUnique(f, w.Modulus(), 0, f); ShiftRightIs(a, n); }
      if k + n >= w.Bits() {
        NoBitsAbove(a, w.Bits(), k + n);
      }
    }
  }

  /** The top bit of a word is its sign. */
  lemma SignBit(a: nat, w: Width)
    requires a < w.Modulus()
    ensures Bit(a, w.Bits() - 1) <==> a >= w.Half()
  {
    WidthPowers(w);
    TopBitIs(a, w.Bits() - 1);
  }

  lemma TopBitIs(a: nat, n: nat)
    requires a < 2 * Pow2(n)
    ensures Bit(a, n) <==> a >= Pow2(n)
  {
    if a >= Pow2(n) {
      DivModUnique(a, Pow2(n), 1, a - Pow2(n));
    } else {
      DivModUnique(a, Pow2(n), 0, a);
    }
  }

  lemma RotateBits(a: nat, n: nat, w: Width, k: nat)
    requires a < w.Modulus() && n < w.Bits()
    ensures Bit(RotateRight(a, n, w), k) <==> k < w.Bits() && Bit(a, (n + k) % w.Bits())
  {
    hide Bit, Pow2, RotateRight, ShiftRight;
    RotateIs(a, n, w);
    if k >= w.Bits() {
      WidthPowers(w);
      NoBitsAbove(RotateRight(a, n, w), w.Bits(), k);
    } else {
      JoinBits(ShiftRight(a, n), a % Pow2(n), w.Bits() - n, k);
      if k < w.Bits() - n {
        RightBits(a, n, k);
      } else {
        RemainderBits(a, n, k - (w.Bits() - n));
        assert (n + k) % w.Bits() == k - (w.Bits() - n);
      }
    }
  }

  lemma RotateIs(a: nat, n: nat, w: Width)
    requires a < w.Modulus() && n < w.Bits()
    ensures ShiftRight(a, n) < Pow2(w.Bits() - n)
    ensures RotateRight(a, n, w) == ShiftRight(a, n) + (a % Pow2(n)) * Pow2(w.Bits() - n)
  {
    hide Pow2;
    WidthPowers(w);
    Pow2Add(n, w.Bits() - n);
    DivBelow(a, Pow2(n), Pow2(w.Bits() - n));
  }

  /** Sign extension repeats the top bit of the field upward. */
  lemma ExtendBits(a: nat, bits: nat, k: nat)
    requires 0 < bits <= 64 && k < 64
    ensures Bit(SignExtend(a, bits), k) <==> Bit(a, Least(k, bits - 1))
  {
    hide Bit, Pow2, Wrap64;
    var low := a % Pow2(bits);
    RemainderBits(a, bits, k);
    RemainderBits(a, bits, bits - 1);
    PowStep(bits);
    TopBitIs(low, bits - 1);
    Pow2Widths();
    Pow2Monotone(bits, 64);
    if low >= Pow2(bits - 1) {
      WrapNegative(low - Pow2(bits));
      OnesAbove(low, bits, 64, k);
    } else {
      WrapSmall(low);
    }
  }

  lemma DoubleShiftBits(hi: nat, lo: nat, n: nat, w: Width, k: nat)
    requires hi < w.Modulus() && lo < w.Modulus() && k < w.Bits()
    ensures Bit(DoubleShiftRight(hi, lo, n, w), k) <==>
            if n + k < w.Bits() then Bit(lo, n + k) else n + k < 2 * w.Bits() && Bit(hi, n + k - w.Bits())
  {
    hide Bit, Pow2, ShiftRight;
    WidthPowers(w);
    MulMonotone(0, hi, w.Modulus());
    var both := hi * w.Modulus() + lo;
    ShiftRightIs(both, n);
    RemainderBits(ShiftRight(both, n), w.Bits(), k);
    RightBits(both, n, k);
    JoinBits(lo, hi, w.Bits(), n + k);
    if n + k >= 2 * w.Bits() {
      NoBitsAbove(hi, w.Bits(), n + k - w.Bits());
    }
  }

  // ---------- operands ----------

  /** Bit `k` of a register operand after its shift or extension, for a register that holds `raw`. */
  predicate ShiftedBit(raw: uint64, w: Width, sh: Shift, k: nat) {
    var n, m := sh.amt % w.Bits(), sh.amt % 64;
    match sh
    case Lsl(_) => n <= k < w.Bits() && Bit(raw, k - n)
    case Lsr(_) => n + k < w.Bits() && Bit(raw, n + k)
    case Asr(_) => k < w.Bits() && Bit(raw, Least(n + k, w.Bits() - 1))
    case Ror(_) => k < w.Bits() && Bit(raw, (n + k) % w.Bits())
    case Uxtb(_) => m <= k < m + 8 && Bit(raw, k - m)
    case Uxth(_) => m <= k < m + 16 && Bit(raw, k - m)
    case Uxtw(_) => m <= k < m + 32 && Bit(raw, k - m)
    case Uxtx(_) => m <= k && Bit(raw, k - m)
    case Sxtb(_) => m <= k && Bit(raw, Least(k - m, 7))
    case Sxth(_) => m <= k && Bit(raw, Least(k - m, 15))
    case Sxtw(_) => m <= k && Bit(raw, Least(k - m, 31))
    case Sxtx(_) => m <= k && Bit(raw, k - m)
    case Msl(_) => k < m || Bit(raw, k - m)
  }

  /** Every shift and every extension moves the bits it should. */
  lemma ShiftBits(raw: uint64, w: Width, sh: Shift, k: nat)
    requires k < 64
    ensures Bit(EvalShift(raw, w, sh), k) <==> ShiftedBit(raw, w, sh, k)
  {
    hide EvalShift, ShiftedBit;
    if sh.Lsl? || sh.Lsr? || sh.Asr? || sh.Ror? {
      ShiftedInWidth(raw, w, sh, k);
    } else if sh.Sxtb? || sh.Sxth? || sh.Sxtw? || sh.Sxtx? {
      SignExtendedOperand(raw, w, sh, k);
    } else {
      ZeroExtendedOperand(raw, w, sh, k);
    }
  }

  lemma ShiftedInWidth(raw: uint64, w: Width, sh: Shift, k: nat)
    requires k < 64 && (sh.Lsl? || sh.Lsr? || sh.Asr? || sh.Ror?)
    ensures Bit(EvalShift(raw, w, sh), k) <==> ShiftedBit(raw, w, sh, k)
  {
    hide Bit, Pow2, ShiftLeft, ShiftRight, ShiftRightArith, RotateRight;
    var n, base := sh.amt % w.Bits(), raw % w.Modulus();
    if sh.Lsl? {
      LeftBits(base, n, w, k);
      WordLow(raw, w, k - n);
    } else if sh.Lsr? {
      RightBits(base, n, k);
      WordLow(raw, w, n + k);
    } else if sh.Asr? {
      ArithBits(base, n, w, k);
      WordLow(raw, w, Least(n + k, w.Bits() - 1));
    } else {
      RotateBits(base, n, w, k);
      WordLow(raw, w, (n + k) % w.Bits());
    }
  }

  lemma ZeroExtendedOperand(raw: uint64, w: Width, sh: Shift, k: nat)
    requires k < 64 && (sh.Uxtb? || sh.Uxth? || sh.Uxtw? || sh.Uxtx? || sh.Msl?)
    ensures Bit(EvalShift(raw, w, sh), k) <==> ShiftedBit(raw, w, sh, k)
  {
    hide Bit, Pow2, ShiftLeft, Or;
    var m := sh.amt % 64;
    LeftBits(if sh.Uxtb? then raw % 0x100 else if sh.Uxth? then raw % 0x1_0000 else if sh.Uxtw? then raw % TWO32 else raw, m, W64, k);
    if sh.Msl? {
      OnesBits(m, k);
      MaskFits(m);
      OrBits(ShiftLeft(raw, m, W64), Pow2(m) - 1, k);
    } else {
      ZeroExtended(raw, k - m);
    }
  }

  lemma SignExtendedOperand(raw: uint64, w: Width, sh: Shift, k: nat)
    requires k < 64 && (sh.Sxtb? || sh.Sxth? || sh.Sxtw? || sh.Sxtx?)
    ensures Bit(EvalShift(raw, w, sh), k) <==> ShiftedBit(raw, w, sh, k)
  {
    hide Bit, Pow2, ShiftLeft, SignExtend;
    var m := sh.amt % 64;
    var bits := if sh.Sxtb? then 8 else if sh.Sxth? then 16 else 32;
    LeftBits(if sh.Sxtx? then raw else SignExtend(raw, bits), m, W64, k);
    SignExtended(raw, bits, k - m);
  }

  lemma MaskFits(m: nat)
    requires m < 64
    ensures Pow2(m) - 1 < TWO64
  {
    Pow2Monotone(m, 64);
    Pow2Widths();
  }

  lemma WordLow(raw: uint64, w: Width, k: int)
    ensures k >= 0 ==> (Bit(raw % w.Modulus(), k) <==> k < w.Bits() && Bit(raw, k))
  {
    hide Bit, Pow2;
    WidthPowers(w);
    if k >= 0 {
      RemainderBits(raw, w.Bits(), k);
    }
  }

  lemma ZeroExtended(raw: uint64, k: int)
    ensures k >= 0 ==> (Bit(raw % 0x100, k) <==> k < 8 && Bit(raw, k))
    ensures k >= 0 ==> (Bit(raw % 0x1_0000, k) <==> k < 16 && Bit(raw, k))
    ensures k >= 0 ==> (Bit(raw % TWO32, k) <==> k < 32 && Bit(raw, k))
  {
    hide Bit, Pow2;
    Pow2Widths();
    if k >= 0 {
      RemainderBits(raw, 8, k);
      RemainderBits(raw, 16, k);
      RemainderBits(raw, 32, k);
    }
  }

  lemma SignExtended(raw: uint64, bits: nat, k: int)
    requires 0 < bits <= 64 && k < 64
    ensures k >= 0 ==> (Bit(SignExtend(raw, bits), k) <==> Bit(raw, Least(k, bits - 1)))
  {
    if k >= 0 {
      ExtendBits(raw, bits, k);
    }
  }

  /** An immediate operand is shifted in 64 bits; other shift kinds leave it as it is. */
  lemma ImmShiftBits(raw: uint64, sh: Option<Shift>, k: nat)
    requires k < 64
    ensures Bit(EvalImmShift(raw, sh), k) <==>
            if sh.Some? && (sh.value.Lsl? || sh.value.Lsr? || sh.value.Asr? || sh.value.Ror?)
            then ShiftedBit(raw, W64, sh.value, k) else Bit(raw, k)
  {
    hide Bit, ShiftLeft, ShiftRight, ShiftRightArith, RotateRight, ShiftedBit;
    if sh.Some? && (sh.value.Lsl? || sh.value.Lsr? || sh.value.Asr? || sh.value.Ror?) {
      ImmShiftIs(raw, sh.value);
      ShiftBits(raw, W64, sh.value, k);
    }
  }

  lemma ImmShiftIs(raw: uint64, sh: Shift)
    requires sh.Lsl? || sh.Lsr? || sh.Asr? || sh.Ror?
    ensures EvalImmShift(raw, Some(sh)) == EvalShift(raw, W64, sh)
  {
    hide ShiftLeft, ShiftRight, ShiftRightArith, RotateRight;
    WrapSmall(raw);
  }

  /** The two readings of an immediate agree modulo 2^64, and each constructor is read as written. */
  lemma ImmReadings(imm: Imm)
    ensures (imm.ToU64() - imm.ToI64()) % TWO64 == 0
    ensures imm.SignedImm? ==> imm.ToI64() == imm.i
    ensures imm.UnsignedImm? ==> imm.ToU64() == imm.u
  {
    if imm.SignedImm? {
      assert Wrap64(imm.i) == if imm.i < 0 then imm.i + TWO64 else imm.i;
    }
  }

  /** Bit `k` of what an operand stands for. */
  predicate OperandBit(o: Operand, s: Regs, k: nat) {
    match o
    case RegOp(r) => Bit(GetReg(r, s), k)
    case QualReg(r) => Bit(GetReg(r, s), k)
    case ShiftReg(r, sh) => ShiftedBit(GetReg(r, s), r.Width(), sh, k)
    case ImmOp(imm, sh) =>
      if sh.Some? && (sh.value.Lsl? || sh.value.Lsr? || sh.value.Asr? || sh.value.Ror?)
      then ShiftedBit(imm.ToU64(), W64, sh.value, k) else Bit(imm.ToU64(), k)
    case Label(imm) => Bit(imm.ToU64(), k)
    case _ => false
  }

  /** The value of every operand form, bit by bit; the forms without a value of their own count as zero. */
  lemma OperandBits(o: Operand, s: Regs, k: nat)
    requires k < 64
    ensures Bit(OperandVal(o, s), k) <==> OperandBit(o, s, k)
  {
    hide Bit, EvalShift, EvalImmShift, ShiftedBit, GetReg;
    match o {
      case ShiftReg(r, sh) => ShiftBits(GetReg(r, s), r.Width(), sh, k);
      case ImmOp(imm, sh) => ImmShiftBits(imm.ToU64(), sh, k);
      case _ => ZeroBits(k);
    }
  }

  // ---------- bitfield moves ----------

  lemma FieldBits(v: nat, lsb: nat, width: nat, k: nat)
    ensures Bit(Field(v, lsb, width), k) <==> k < width && Bit(v, lsb + k)
  {
    hide Bit, Pow2, ShiftRight;
    ShiftRightIs(v, lsb);
    RemainderBits(ShiftRight(v, lsb), width, k);
    RightBits(v, lsb, k);
  }

  /** Bit `k` of a bitfield move: a field moved down and perhaps sign-extended, or a low field moved up. */
  predicate MovedBit(signed: bool, v: uint64, immr: nat, imms: nat, w: Width, k: nat) {
    k < w.Bits() &&
    if immr <= imms then (if k <= imms - immr then Bit(v, immr + k) else signed && Bit(v, imms))
    else w.Bits() - immr <= k <= w.Bits() - immr + imms && Bit(v, k - (w.Bits() - immr))
  }

  lemma MoveBits(signed: bool, v: uint64, immr: nat, imms: nat, w: Width, k: nat)
    requires immr < w.Bits() && imms < w.Bits()
    ensures Bit(MoveValue(signed, v, immr, imms, w), k) <==> MovedBit(signed, v, immr, imms, w, k)
  {
    hide Bit, Pow2, MoveValue, Field, SignExtend;
    if imms < immr {
      MoveUpBits(signed, v, immr, imms, w, k);
    } else {
      var width := imms - immr + 1;
      FieldBits(v, immr, width, k);
      if signed {
        MoveExtends(v, immr, imms, w);
        WordLow(SignExtend(Field(v, immr, width), width), w, k);
        if k < w.Bits() {
          ExtendBits(Field(v, immr, width), width, k);
          FieldBits(v, immr, width, Least(k, width - 1));
        }
      } else {
        MoveSelects(v, immr, imms, w);
      }
    }
  }

  lemma MoveUpBits(signed: bool, v: uint64, immr: nat, imms: nat, w: Width, k: nat)
    requires imms < immr < w.Bits()
    ensures Bit(MoveValue(signed, v, immr, imms, w), k) <==> MovedBit(signed, v, immr, imms, w, k)
  {
    hide Bit, Pow2, FieldMask, And64, ShiftLeft;
    var field := And64(v, FieldMask(imms + 1, w));
    MaskSelects(v, imms + 1, w);
    WordLow(ShiftLeft(field, w.Bits() - immr, W64), w, k);
    LeftBits(field, w.Bits() - immr, W64, k);
    if k >= w.Bits() - immr {
      RemainderBits(v, imms + 1, k - (w.Bits() - immr));
    }
  }

  /**
   A signed move of a low field upward leaves zeros above the field, where the architecture puts copies of the
   field's sign. The two agree exactly when the field's top bit is clear or the field reaches the top of the
   register.
   */
  lemma SignedInsert(v: uint64, immr: nat, imms: nat, w: Width)
    requires imms < immr < w.Bits()
    ensures MoveValue(true, v, immr, imms, w) == ShiftLeft(SignExtend(v, imms + 1), w.Bits() - immr, w) <==>
            !Bit(v, imms) || imms + 1 == immr
  {
    hide Bit, Pow2, MoveValue, SignExtend, ShiftLeft;
    var a, n := MoveValue(true, v, immr, imms, w), w.Bits() - immr;
    var b := ShiftLeft(SignExtend(v, imms + 1), n, w);
    Pow2Widths();
    forall k: nat | k < w.Bits()
      ensures Bit(a, k) <==> MovedBit(true, v, immr, imms, w, k)
      ensures Bit(b, k) <==> k >= n && Bit(v, Least(k - n, imms))
    {
      MoveBits(true, v, immr, imms, w, k);
      LeftBits(SignExtend(v, imms + 1), n, w, k);
      if k >= n {
        ExtendBits(v, imms + 1, k - n);
      }
    }
    if !Bit(v, imms) || imms + 1 == immr {
      MoveFits(true, v, immr, imms, w);
      WidthPowers(w);
      BitsDetermine(a, b, w.Bits());
    } else {
      assert !Bit(a, n + imms + 1) && Bit(b, n + imms + 1);
    }
  }

  /** SBFM X0, X1, #60, #3 with 8 in X1 leaves 0x80; the sign-extended field moved up is 0xffff_ffff_ffff_ff80. */
  lemma SignedInsertDiffers()
    ensures MoveValue(true, 8, 60, 3, W64) == 0x80
    ensures ShiftLeft(SignExtend(8, 4), 4, W64) == 0xffff_ffff_ffff_ff80
  {
    hide And64, FieldMask, SignExtend;
    assert Pow2(3) == 8 && Pow2(4) == 16;
    MaskSelects(8, 4, W64);
    assert SignExtend(8, 4) == 0xffff_ffff_ffff_fff8 by { NegativeField(); }
  }

  lemma NegativeField()
    ensures SignExtend(8, 4) == 0xffff_ffff_ffff_fff8
  {
    assert Pow2(3) == 8 && Pow2(4) == 16;
  }

  lemma MoveFits(signed: bool, v: uint64, immr: nat, imms: nat, w: Width)
    requires immr < w.Bits() && imms < w.Bits()
    ensures MoveValue(signed, v, immr, imms, w) < w.Modulus()
  {
    hide ShiftRight, ShiftLeft, And64, FieldMask, ExtendField;
  }

  // ---------- instructions ----------

  /** A destination that takes a whole value of its width. */
  predicate Target(o: Operand, rd: Reg) { OpReg(o) == Some(rd) && (rd.X? || rd.W? || rd.SP?) }

  lemma WrittenBits(rd: Reg, val: uint64, s: Regs, k: nat)
    requires rd.X? || rd.W? || rd.SP?
    ensures Bit(GetReg(rd, SetReg(rd, val, s)), k) <==> k < rd.Width().Bits() && Bit(val, k)
    ensures SetReg(rd, val, s) == SetReg(rd, GetReg(rd, SetReg(rd, val, s)), s)
  {
    hide Bit, Pow2;
    Pow2Widths();
    WordLow(val, rd.Width(), k);
    if k >= 64 {
      NoBitsAbove(val, 64, k);
    }
    WrittenOnce(rd, val, s);
  }

  lemma WrittenOnce(rd: Reg, val: uint64, s: Regs)
    requires rd.X? || rd.W? || rd.SP?
    ensures var v := GetReg(rd, SetReg(rd, val, s));
            SetReg(rd, val, s) == SetReg(rd, v, s) && v == val % rd.Width().Modulus()
  {
  }

  /** The truth table of a bitwise instruction. */
  predicate Combines(op: Op, p: bool, q: bool) { if op == EOR then p != q else if op == ORR then p || q else p && q }

  /**
   After EOR, ORR, AND or ANDS of any operands, at either width, each bit of the destination below its width is
   the combination of the sources' bits, and no bit above is set. No other register changes.
   */
  lemma LogicBits(op: Op, ops: seq<Operand>, rd: Reg, s: Regs, k: nat)
    requires op in {EOR, ORR, AND, ANDS} && |ops| >= 2 && Target(ops[0], rd)
    ensures var n := if |ops| >= 3 then 1 else 0;
            var t := Apply(DataEffect(Inst(op, ops), s), s);
            && (Bit(GetReg(rd, t), k) <==>
                  k < rd.Width().Bits() && Combines(op, Bit(OperandVal(ops[n], s), k), Bit(OperandVal(ops[n + 1], s), k)))
            && t == SetReg(rd, GetReg(rd, t), s).(pstate := t.pstate)
            && (op != ANDS ==> t.pstate == s.pstate)
  {
    hide DataEffect, OperandVal, And64, Or64, Xor64, Bit, Pow2, LogicFlags;
    var n := if |ops| >= 3 then 1 else 0;
    var v1, v2 := OperandVal(ops[n], s), OperandVal(ops[n + 1], s);
    LogicForm(op, ops, s);
    var v := if op == EOR then Xor64(v1, v2) else if op == ORR then Or64(v1, v2) else And64(v1, v2);
    WrittenBits(rd, v, s, k);
    if k < 64 {
      WordBits(v1, v2, k);
    }
    assert rd.Width().Bits() <= 64;
    EffectWrites(rd, v, if op == ANDS then Some(LogicFlags(v, OperandWidth(ops[n]))) else None, s);
  }

  lemma LogicForm(op: Op, ops: seq<Operand>, s: Regs)
    requires op in {EOR, ORR, AND, ANDS} && |ops| >= 2 && OpReg(ops[0]).Some?
    ensures var n := if |ops| >= 3 then 1 else 0;
            var v1, v2 := OperandVal(ops[n], s), OperandVal(ops[n + 1], s);
            var v := if op == EOR then Xor64(v1, v2) else if op == ORR then Or64(v1, v2) else And64(v1, v2);
            DataEffect(Inst(op, ops), s) ==
            Effect(Some((OpReg(ops[0]).value, v)), if op == ANDS then Some(LogicFlags(v, OperandWidth(ops[n]))) else None, None)
  {
    hide OperandVal, And64, Or64, Xor64, LogicFlags;
  }

  lemma EffectWrites(rd: Reg, v: uint64, f: Option<Flags>, s: Regs)
    requires rd.X? || rd.W? || rd.SP?
    ensures var t, t' := Apply(Effect(Some((rd, v)), f, None), s), SetReg(rd, v, s);
            GetReg(rd, t) == GetReg(rd, t') && t == t'.(pstate := t.pstate) && (f.None? ==> t.pstate == s.pstate)
  {
    hide SetFlags;
  }

  /** What ANDS and TST leave in the flags: the top common bit, no common bit, and C and V clear. */
  lemma TestFlags(op: Op, ops: seq<Operand>, s: Regs)
    requires op in {ANDS, TST} && |ops| >= 2 && OpReg(ops[0]).Some?
    ensures var n := if op == ANDS && |ops| >= 3 then 1 else 0;
            var v1, v2, w := OperandVal(ops[n], s), OperandVal(ops[n + 1], s), OperandWidth(ops[n]).Bits();
            var t := Apply(DataEffect(Inst(op, ops), s), s);
            && GetFlags(t.pstate) == Flags(Bit(v1, w - 1) && Bit(v2, w - 1), forall k: nat :: k < w ==> !(Bit(v1, k) && Bit(v2, k)), false, false)
            && (op == TST ==> t == s.(pstate := t.pstate))
  {
    hide OperandVal, And64, Bit, Pow2, DataEffect, LogicFlags, SetFlags;
    var n := if op == ANDS && |ops| >= 3 then 1 else 0;
    var v1, v2, w := OperandVal(ops[n], s), OperandVal(ops[n + 1], s), OperandWidth(ops[n]);
    if op == ANDS {
      LogicForm(op, ops, s);
    } else {
      TestForm(ops, s);
    }
    CommonBits(v1, v2, w);
  }

  lemma TestForm(ops: seq<Operand>, s: Regs)
    requires |ops| >= 2 && OpReg(ops[0]).Some?
    ensures DataEffect(Inst(TST, ops), s) ==
            Effect(None, Some(LogicFlags(And64(OperandVal(ops[0], s), OperandVal(ops[1], s)), OperandWidth(ops[0]))), None)
  {
    hide OperandVal, And64, LogicFlags;
  }

  lemma CommonBits(v1: uint64, v2: uint64, w: Width)
    ensures LogicFlags(And64(v1, v2), w) ==
            Flags(Bit(v1, w.Bits() - 1) && Bit(v2, w.Bits() - 1), forall k: nat :: k < w.Bits() ==> !(Bit(v1, k) && Bit(v2, k)), false, false)
  {
    hide Bit, Pow2, And64;
    var low := And64(v1, v2) % w.Modulus();
    forall k: nat | k < w.Bits()
      ensures Bit(low, k) <==> Bit(v1, k) && Bit(v2, k)
    {
      WordLow(And64(v1, v2), w, k);
      WordBits(v1, v2, k);
    }
    SignBit(low, w);
    if low == 0 {
      forall k: nat | k < w.Bits() ensures !Bit(low, k) { ZeroBits(k); }
    } else if forall k: nat :: k < w.Bits() ==> !(Bit(v1, k) && Bit(v2, k)) {
      forall k: nat | k < w.Bits() ensures !Bit(0, k) { ZeroBits(k); }
      WidthPowers(w);
      BitsDetermine(low, 0, w.Bits());
    }
  }

  function ShiftKind(op: Op, n: uint32): Shift {
    match op
    case LSL => Lsl(n)
    case LSR => Lsr(n)
    case ASR => Asr(n)
    case _ => Ror(n)
  }

  /** A shift instruction moves bits as the shifted operand of its kind does; the amount counts modulo the width. */
  lemma ShiftInstructionBits(op: Op, ops: seq<Operand>, rd: Reg, s: Regs, k: nat)
    requires op in {LSL, LSR, ASR, ROR} && |ops| >= 3 && Target(ops[0], rd) && k < 64
    ensures var t := Apply(DataEffect(Inst(op, ops), s), s);
            && (Bit(GetReg(rd, t), k) <==>
                  ShiftedBit(OperandVal(ops[1], s), rd.Width(), ShiftKind(op, OperandVal(ops[2], s) % rd.Width().Bits()), k))
            && t == SetReg(rd, GetReg(rd, t), s)
  {
    hide DataEffect, OperandVal, Bit, Pow2, EvalShift, ShiftedBit, ShiftValue;
    var w := rd.Width();
    var v, n := OperandVal(ops[1], s), OperandVal(ops[2], s) % w.Bits();
    ShiftForm(op, ops, s);
    ShiftIsOperand(op, v, n, w);
    ShiftBits(v, w, ShiftKind(op, n), k);
    WrittenBits(rd, EvalShift(v, w, ShiftKind(op, n)), s, k);
    EffectWrites(rd, EvalShift(v, w, ShiftKind(op, n)), None, s);
    if k >= w.Bits() {
      ShiftFits(op, v, n, w);
      WidthPowers(w);
      NoBitsAbove(EvalShift(v, w, ShiftKind(op, n)), w.Bits(), k);
    }
  }

  /** Cutting an amount to 32 bits does not matter to its remainder by a small power of two. */
  lemma AmountLow(v: uint64)
    ensures v % TWO32 % 32 == v % 32 && v % TWO32 % 64 == v % 64 && v % TWO32 % 128 == v % 128
  {
    AmountMod(v, 32, 0x800_0000);
    AmountMod(v, 64, 0x400_0000);
    AmountMod(v, 128, 0x200_0000);
  }

  lemma AmountMod(v: nat, n: nat, c: nat)
    requires n > 0 && c * n == TWO32
    ensures v % TWO32 % n == v % n
  {
    var q := v / TWO32;
    assert v == v % TWO32 + q * TWO32;
    assert q * TWO32 == (q * c) * n by { assert q * (c * n) == (q * c) * n; }
    ModAddMultiple(v % TWO32, q * c, n);
  }

  lemma ShiftForm(op: Op, ops: seq<Operand>, s: Regs)
    requires op in {LSL, LSR, ASR, ROR} && |ops| >= 3 && OpReg(ops[0]).Some?
    ensures var w := OpReg(ops[0]).value.Width();
            DataEffect(Inst(op, ops), s) ==
            Effect(Some((OpReg(ops[0]).value, ShiftValue(op, OperandVal(ops[1], s) % w.Modulus(), OperandVal(ops[2], s) % w.Bits(), w))), None, None)
  {
    hide OperandVal, ShiftValue;
    AmountLow(OperandVal(ops[2], s));
  }

  lemma ShiftIsOperand(op: Op, v: uint64, n: nat, w: Width)
    requires op in {LSL, LSR, ASR, ROR} && n < w.Bits()
    ensures ShiftValue(op, v % w.Modulus(), n, w) == EvalShift(v, w, ShiftKind(op, n))
  {
    hide ShiftLeft, ShiftRight, ShiftRightArith, RotateRight;
  }

  lemma ShiftFits(op: Op, v: uint64, n: nat, w: Width)
    requires op in {LSL, LSR, ASR, ROR} && n < w.Bits()
    ensures EvalShift(v, w, ShiftKind(op, n)) < w.Modulus()
  {
    hide ShiftLeft, ShiftRight, ShiftRightArith, RotateRight;
  }

  /** EXTR takes a register's width of bits from its first source placed above its second. */
  lemma ExtractPairBits(ops: seq<Operand>, rd: Reg, s: Regs, k: nat)
    requires |ops| >= 4 && Target(ops[0], rd)
    ensures var w := rd.Width().Bits();
            var vn, vm, n := OperandVal(ops[1], s), OperandVal(ops[2], s), OperandVal(ops[3], s) % (2 * w);
            var t := Apply(DataEffect(Inst(EXTR, ops), s), s);
            && (Bit(GetReg(rd, t), k) <==>
                  k < w && if n + k < w then Bit(vm, n + k) else n + k < 2 * w && Bit(vn, n + k - w))
            && t == SetReg(rd, GetReg(rd, t), s)
  {
    hide DataEffect, OperandVal, Bit, Pow2, DoubleShiftRight;
    var w := rd.Width();
    var vn, vm, n := OperandVal(ops[1], s), OperandVal(ops[2], s), OperandVal(ops[3], s) % (2 * w.Bits());
    ExtrForm(ops, s);
    var v := DoubleShiftRight(vn % w.Modulus(), vm % w.Modulus(), n, w);
    WrittenBits(rd, v, s, k);
    EffectWrites(rd, v, None, s);
    if k < w.Bits() {
      DoubleShiftBits(vn % w.Modulus(), vm % w.Modulus(), n, w, k);
      WordLow(vm, w, n + k);
      WordLow(vn, w, n + k - w.Bits());
    }
  }

  lemma ExtrForm(ops: seq<Operand>, s: Regs)
    requires |ops| >= 4 && OpReg(ops[0]).Some?
    ensures var w := OpReg(ops[0]).value.Width();
            DataEffect(Inst(EXTR, ops), s) ==
            Effect(Some((OpReg(ops[0]).value,
                         DoubleShiftRight(OperandVal(ops[1], s) % w.Modulus(), OperandVal(ops[2], s) % w.Modulus(),
                                          OperandVal(ops[3], s) % (2 * w.Bits()), w))), None, None)
  {
    hide OperandVal, DoubleShiftRight;
    AmountLow(OperandVal(ops[3], s));
  }

  /** UBFM and SBFM of any operands; both positions count modulo the width. */
  lemma BitfieldMoveBits(op: Op, ops: seq<Operand>, rd: Reg, s: Regs, k: nat)
    requires op in {UBFM, SBFM} && |ops| >= 4 && Target(ops[0], rd)
    ensures var w := rd.Width();
            var t := Apply(DataEffect(Inst(op, ops), s), s);
            && (Bit(GetReg(rd, t), k) <==>
                  MovedBit(op == SBFM, OperandVal(ops[1], s), OperandVal(ops[2], s) % w.Bits(), OperandVal(ops[3], s) % w.Bits(), w, k))
            && t == SetReg(rd, GetReg(rd, t), s)
  {
    hide DataEffect, OperandVal, Bit, Pow2, MoveValue;
    var w := rd.Width();
    var v, immr, imms := OperandVal(ops[1], s), OperandVal(ops[2], s) % w.Bits(), OperandVal(ops[3], s) % w.Bits();
    BitfieldForm(op, ops, s);
    WrittenBits(rd, MoveValue(op == SBFM, v, immr, imms, w), s, k);
    EffectWrites(rd, MoveValue(op == SBFM, v, immr, imms, w), None, s);
    MoveBits(op == SBFM, v, immr, imms, w, k);
  }

  lemma BitfieldForm(op: Op, ops: seq<Operand>, s: Regs)
    requires op in {UBFM, SBFM} && |ops| >= 4 && OpReg(ops[0]).Some?
    ensures var w := OpReg(ops[0]).value.Width();
            DataEffect(Inst(op, ops), s) ==
            Effect(Some((OpReg(ops[0]).value,
                         MoveValue(op == SBFM, OperandVal(ops[1], s), OperandVal(ops[2], s) % w.Bits(), OperandVal(ops[3], s) % w.Bits(), w))), None, None)
  {
    hide OperandVal, MoveValue;
  }
}
