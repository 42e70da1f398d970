/** Bitfield moves, extracts, extensions, shifts and rotates: what they select, and that the aliases agree. */
module Bitfields {
  import opened Words
  import opened Machine
  import opened Alu

  /** `width` bits of `v` from bit `lsb` upward. */
  function Field(v: nat, lsb: nat, width: nat): (f: nat)
    ensures f < Pow2(width)
  {
    v / Pow2(lsb) % Pow2(width)
  }

  // ---------- masks and sign bits as arithmetic ----------

  lemma MaskSelects(v: uint64, width: nat, w: Width)
    ensures And64(v, FieldMask(width, w)) == if width >= w.Bits() then v else v % Pow2(width)
  {
    hide And, Pow2;
    if width >= w.Bits() {
      Pow2Widths();
      AndMask(v, 64);
    } else {
      AndMask(v, width);
    }
  }

  /** Setting bits above the n lowest adds them. */
  lemma {:induction false} OrDisjoint(a: nat, b: nat, n: nat)
    requires a < Pow2(n)
    ensures Or(a, b * Pow2(n)) == a + b * Pow2(n)
  {
    if n == 0 {
      assert b * Pow2(0) == b;
    } else {
      var m := Pow2(n - 1);
      assert b * Pow2(n) == 2 * (b * m) by { assert b * (2 * m) == 2 * (b * m); }
      OrDisjoint(a / 2, b, n - 1);
      assert b * Pow2(n) / 2 == b * m;
    }
  }

  lemma HighBits(width: nat)
    requires 0 < width < 64
    ensures TWO64 - Pow2(width) == (Pow2(64 - width) - 1) * Pow2(width)
    ensures Pow2(width) <= TWO63 && Pow2(width) == 2 * Pow2(width - 1)
  {
    Pow2Add(64 - width, width);
    Pow2Monotone(width, 63);
    Pow2Widths();
    assert (Pow2(64 - width) - 1) * Pow2(width) == Pow2(64 - width) * Pow2(width) - Pow2(width);
  }

  lemma WrapNegative(x: int)
    requires 0 - TWO64 <= x < 0
    ensures Wrap64(x) == x + TWO64
  {
  }

  /** Copying the top bit of a field upward is sign extension. */
  lemma ExtendIsSigned(raw: uint64, width: nat)
    requires 0 < width < 64 && raw < Pow2(width)
    ensures Pow2(width) <= TWO63 && ExtendField(raw, Pow2(width) - 1, width) == SignExtend(raw, width)
  {
    hide Or, And, Pow2, Wrap64;
    HighBits(width);
    AndSingleBit(raw, width - 1);
    DivModUnique(raw, Pow2(width), 0, raw);
    if raw >= Pow2(width - 1) {
      OrDisjoint(raw, Pow2(64 - width) - 1, width);
      WrapNegative(raw - Pow2(width));
    } else {
      assert Wrap64(raw) == raw by { WrapSmall(raw); }
    }
  }

  lemma WrapSmall(x: uint64)
    ensures Wrap64(x) == x
  {
  }

  lemma ExtendFull(raw: uint64, width: nat)
    requires 0 < width
    ensures ExtendField(raw, TWO64 - 1, width) == raw
  {
  }

  lemma ExtendWhole(v: uint64, w: Width)
    ensures SignExtend(v % w.Modulus(), w.Bits()) % w.Modulus() == v % w.Modulus()
  {
    hide Pow2;
    WidthPowers(w);
    var low := v % w.Modulus();
    DivModUnique(low, w.Modulus(), 0, low);
    if low >= w.Half() {
      WrapNegative(low - w.Modulus());
      ModAddMultiple(low, (TWO64 - w.Modulus()) / w.Modulus(), w.Modulus());
    }
  }

  /** A field that fills the register is the register. */
  lemma WholeField(v: uint64, lsb: nat, w: Width)
    requires lsb == 0
    ensures Field(v, lsb, w.Bits()) == v % w.Modulus() && ShiftRight(v, lsb) == v
  {
    WidthPowers(w);
    assert Pow2(0) == 1 && v / 1 == v;
  }

  lemma FieldFits(v: uint64, lsb: nat, width: nat, w: Width)
    requires width <= w.Bits()
    ensures Field(v, lsb, width) < w.Modulus()
  {
    Pow2Monotone(width, w.Bits());
    WidthPowers(w);
  }

  // ---------- the values of the operations ----------

  /** An unsigned bitfield move with imms >= immr is the selected field. */
  lemma MoveSelects(v: uint64, immr: nat, imms: nat, w: Width)
    requires immr <= imms < w.Bits()
    ensures MoveValue(false, v, immr, imms, w) == Field(v, immr, imms - immr + 1)
  {
    hide And64, FieldMask, Pow2;
    var width := imms - immr + 1;
    MaskSelects(ShiftRight(v, immr), width, w);
    FieldFits(v, immr, width, w);
    if width == w.Bits() {
      WholeField(v, immr, w);
    }
  }

  /** A signed one is the field's true sign extension. */
  lemma MoveExtends(v: uint64, immr: nat, imms: nat, w: Width)
    requires immr <= imms < w.Bits()
    ensures var width := imms - immr + 1;
            MoveValue(true, v, immr, imms, w) == SignExtend(Field(v, immr, width), width) % w.Modulus()
  {
    hide And64, ExtendField, SignExtend, Pow2;
    var width := imms - immr + 1;
    MaskSelects(ShiftRight(v, immr), width, w);
    FieldFits(v, immr, width, w);
    if width == w.Bits() {
      WholeField(v, immr, w);
      ExtendFull(v, width);
      ExtendWhole(v, w);
    } else {
      ExtendIsSigned(Field(v, immr, width), width);
    }
  }

  lemma ExtractNothing(signed: bool, v: uint64)
    ensures ExtractValue(signed, v, 0, 64, W64) == 0
  {
    hide And64, Pow2, ExtendField;
    MaskSelects(ShiftRight(v, 0), 0, W64);
    PowZero();
  }

  /** Below 64 bits, an extract is the move of the same field. */
  lemma ExtractIsMove(signed: bool, v: uint64, lsb: nat, width: nat, w: Width)
    requires 0 < width < 64 && lsb + width <= w.Bits()
    ensures ExtractValue(signed, v, lsb, width, w) == MoveValue(signed, v, lsb, lsb + width - 1, w)
  {
    hide And64, ExtendField, FieldMask, ShiftRight;
    assert width % 64 == width && lsb % 64 % w.Bits() == lsb;
  }

  lemma PowZero()
    ensures Pow2(0) == 1
  {
  }

  lemma FieldOfWord(v: uint64, lsb: nat, w: Width)
    requires lsb < w.Bits()
    ensures Field(v, lsb, w.Bits() - lsb) == ShiftRight(v % w.Modulus(), lsb)
  {
    hide Pow2;
    var p, q := Pow2(lsb), Pow2(w.Bits() - lsb);
    assert p * q == w.Modulus() by {
      WidthPowers(w);
      Pow2Add(lsb, w.Bits() - lsb);
    }
    FieldOfProduct(v, p, q);
  }

  lemma FieldOfProduct(v: nat, p: nat, q: nat)
    requires p > 0 && q > 0
    ensures p * q > 0 && v / p % q == v % (p * q) / p
  {
    DivDiv(v, p, q);
    DivModUnique(v % (p * q), p, v / p % q, v % p);
  }

  /** The bits that a left shift drops do not matter. */
  lemma ShiftTruncates(v: uint64, k: nat, w: Width)
    requires 0 < k < w.Bits()
    ensures ShiftLeft(v % Pow2(w.Bits() - k), k, W64) % w.Modulus() == ShiftLeft(v % w.Modulus(), k, w)
  {
    hide Pow2;
    var p, q, m := Pow2(k), Pow2(w.Bits() - k), w.Modulus();
    assert q * p == m by {
      WidthPowers(w);
      Pow2Add(w.Bits() - k, k);
    }
    WrapMod(v % q * p, w);
    TruncateProduct(v, p, q);
  }

  lemma TruncateProduct(v: nat, p: nat, q: nat)
    requires p > 0 && q > 0
    ensures q * p > 0 && (v % q) * p % (q * p) == (v % (q * p)) * p % (q * p)
  {
    var m := q * p;
    assert m > 0 by { MulMonotone(1, q, p); }
    assert v * p == (v % q) * p + (v / q) * m by {
      assert v == (v / q) * q + v % q;
      assert ((v / q) * q) * p == (v / q) * (q * p);
    }
    ModAddMultiple((v % q) * p, v / q, m);
    ModMulLeft(v, p, m);
  }

  /** An arithmetic right shift is the sign extension of the bits it keeps. */
  lemma ArithShiftExtends(a: nat, k: nat, w: Width)
    requires a < w.Modulus() && k < w.Bits()
    ensures SignExtend(ShiftRight(a, k), w.Bits() - k) % w.Modulus() == ShiftRightArith(a, k, w)
  {
    hide Pow2;
    KeptBits(a, k, w);
    var q: int, f: int := Pow2(w.Bits() - k), ShiftRight(a, k);
    WrapMod(if a < w.Half() then f else f - q, w);
  }

  lemma KeptBits(a: nat, k: nat, w: Width)
    requires a < w.Modulus() && k < w.Bits()
    ensures var p, q, h := Pow2(k), Pow2(w.Bits() - k), Pow2(w.Bits() - k - 1);
            && ShiftRight(a, k) < q && ShiftRight(a, k) % q == ShiftRight(a, k)
            && (a >= w.Half() <==> ShiftRight(a, k) >= h)
            && (a - w.Modulus()) / p == ShiftRight(a, k) - q
  {
    hide Pow2;
    var p: int, q: int, h: int := Pow2(k), Pow2(w.Bits() - k), Pow2(w.Bits() - k - 1);
    assert p * q == w.Modulus() && p * h == w.Half() by {
      WidthPowers(w);
      Pow2Add(k, w.Bits() - k);
      Pow2Add(k, w.Bits() - k - 1);
    }
    DivBelow(a, p, q);
    DivAtLeast(a, p, 0);
    DivModUnique(a / p, q, 0, a / p);
    HalfQuotient(a, p, h, w.Half());
    ModAddMultiple(a, 0 - q, p);
    assert (0 - q) * p == 0 - p * q;
  }

  lemma HalfQuotient(a: nat, p: nat, h: nat, half: nat)
    requires p > 0 && half == p * h
    ensures a >= half <==> a / p >= h
  {
    if a >= half {
      DivAtLeast(a, p, h);
    } else {
      DivBelow(a, p, h);
    }
  }

  lemma DoubleShiftRotates(a: nat, k: nat, w: Width)
    requires a < w.Modulus() && k < w.Bits()
    ensures DoubleShiftRight(a, a, k, w) == RotateRight(a, k, w)
  {
    hide Pow2;
    var p, t := Pow2(k), Pow2(w.Bits() - k);
    assert p * t == w.Modulus() by {
      WidthPowers(w);
      Pow2Add(k, w.Bits() - k);
    }
    RotateProduct(a, p, t);
  }

  lemma RotateProduct(a: nat, p: nat, t: nat)
    requires p > 0 && t > 0 && a < p * t
    ensures (a * (p * t) + a) / p % (p * t) == a / p + (a % p) * t
  {
    var q, r, m := a / p, a % p, p * t;
    assert a * m == (a * t) * p;
    ModAddMultiple(a, a * t, p);
    assert a * t == q * m + r * t by {
      assert a == q * p + r;
      assert (q * p) * t == q * (p * t);
    }
    ModAddMultiple(r * t + q, q, m);
    RotateArith(a, p, t);
    DivModUnique(q + r * t, m, 0, q + r * t);
  }

  // ---------- the aliases, as instructions ----------

  function Const(k: uint64): Operand { ImmOp(UnsignedImm(k), None) }

  lemma ConstValue(k: uint64, s: Regs)
    ensures OperandVal(Const(k), s) == k
  {
  }

  function Move(op: Op, rd: Operand, rn: Operand, immr: uint64, imms: uint64): Inst {
    Inst(op, [rd, rn, Const(immr), Const(imms)])
  }

  function Shifted(op: Op, rd: Operand, rn: Operand, k: uint64): Inst { Inst(op, [rd, rn, Const(k)]) }

  function DestWidth(rd: Operand): Width { OperandWidth(rd) }

  predicate IsReg(rd: Operand) { OpReg(rd).Some? }

  lemma MoveEffect(op: Op, rd: Operand, rn: Operand, immr: uint64, imms: uint64, s: Regs)
    requires op in {UBFM, SBFM} && IsReg(rd) && immr < DestWidth(rd).Bits() && imms < DestWidth(rd).Bits()
    ensures DataEffect(Move(op, rd, rn, immr, imms), s) ==
            WriteTo(OpReg(rd), MoveValue(op == SBFM, OperandVal(rn, s), immr, imms, DestWidth(rd)))
  {
    hide OperandVal, MoveValue;
    ConstValue(immr, s);
    ConstValue(imms, s);
  }

  lemma ExtractedEffect(op: Op, rd: Operand, rn: Operand, lsb: uint64, width: uint64, s: Regs)
    requires op in {UBFX, SBFX} && IsReg(rd)
    ensures DataEffect(Move(op, rd, rn, lsb, width), s) ==
            WriteTo(OpReg(rd), ExtractValue(op == SBFX, OperandVal(rn, s), lsb, width, DestWidth(rd)))
  {
    hide OperandVal, ExtractValue;
    ConstValue(lsb, s);
    ConstValue(width, s);
  }

  lemma ShiftedEffect(op: Op, rd: Operand, rn: Operand, k: uint64, s: Regs)
    requires op in {LSL, LSR, ASR, ROR} && IsReg(rd) && k < DestWidth(rd).Bits()
    ensures var w := DestWidth(rd);
            DataEffect(Shifted(op, rd, rn, k), s) == WriteTo(OpReg(rd), ShiftValue(op, OperandVal(rn, s) % w.Modulus(), k, w))
  {
    hide OperandVal, ShiftValue;
    ConstValue(k, s);
    assert k % TWO32 % DestWidth(rd).Bits() == k;
  }

  lemma WritesSame(o: Option<Reg>, x: uint64, y: uint64)
    requires o.Some?
    ensures WriteTo(o, x) == WriteTo(o, y) <==> x == y
  {
  }

  lemma MoveMeetsExtract(signed: bool, v: uint64, lsb: nat, width: nat, w: Width)
    requires 0 < width && lsb + width <= w.Bits()
    ensures MoveValue(signed, v, lsb, lsb + width - 1, w) == ExtractValue(signed, v, lsb, width, w) <==> width < 64 || v == 0
  {
    hide MoveValue, ExtractValue, Field, SignExtend, Pow2;
    if width < 64 {
      ExtractIsMove(signed, v, lsb, width, w);
    } else {
      assert w == W64 && lsb == 0 && width == 64;
      ExtractNothing(signed, v);
      WholeField(v, 0, W64);
      MoveSelects(v, 0, 63, W64);
      MoveExtends(v, 0, 63, W64);
      ExtendWhole(v, W64);
    }
  }

  /**
   UBFM agrees with UBFX, and SBFM with SBFX, on every legal field but one. The extracts reduce their width
   modulo 64, so the 64-bit field of a 64-bit register extracts as 0: there the two agree exactly when the
   source is 0.
   */
  lemma ExtractAgrees(signed: bool, rd: Operand, rn: Operand, lsb: uint64, width: uint64, s: Regs)
    requires IsReg(rd) && 0 < width && lsb + width <= DestWidth(rd).Bits()
    ensures var move, extract := if signed then SBFM else UBFM, if signed then SBFX else UBFX;
            DataEffect(Move(move, rd, rn, lsb, lsb + width - 1), s) == DataEffect(Move(extract, rd, rn, lsb, width), s)
            <==> width < 64 || OperandVal(rn, s) == 0
  {
    hide OperandVal, DataEffect, MoveValue, ExtractValue, WriteTo, OpReg, OperandWidth;
    var v, w := OperandVal(rn, s), DestWidth(rd);
    MoveEffect(if signed then SBFM else UBFM, rd, rn, lsb, lsb + width - 1, s);
    ExtractedEffect(if signed then SBFX else UBFX, rd, rn, lsb, width, s);
    MoveMeetsExtract(signed, v, lsb, width, w);
    WritesSame(OpReg(rd), MoveValue(signed, v, lsb, lsb + width - 1, w), ExtractValue(signed, v, lsb, width, w));
  }

  /** LSR by k is UBFM from bit k to the top. */
  lemma LsrIsUbfm(rd: Operand, rn: Operand, k: uint64, s: Regs)
    requires IsReg(rd) && k < DestWidth(rd).Bits()
    ensures DataEffect(Move(UBFM, rd, rn, k, DestWidth(rd).Bits() - 1), s) == DataEffect(Shifted(LSR, rd, rn, k), s)
  {
    hide OperandVal, DataEffect, MoveValue, Field;
    var v, w := OperandVal(rn, s), DestWidth(rd);
    MoveEffect(UBFM, rd, rn, k, w.Bits() - 1, s);
    ShiftedEffect(LSR, rd, rn, k, s);
    MoveSelects(v, k, w.Bits() - 1, w);
    FieldOfWord(v, k, w);
  }

  /** LSL by k is UBFM at the wrapped position: immr is -k modulo the width, imms the width less one and k. */
  lemma LslIsUbfm(rd: Operand, rn: Operand, k: uint64, s: Regs)
    requires IsReg(rd) && k < DestWidth(rd).Bits()
    ensures var bits := DestWidth(rd).Bits();
            DataEffect(Move(UBFM, rd, rn, (bits - k) % bits, bits - 1 - k), s) == DataEffect(Shifted(LSL, rd, rn, k), s)
  {
    hide OperandVal, DataEffect, MoveValue, Field, ShiftLeft;
    var v, w := OperandVal(rn, s), DestWidth(rd);
    MoveEffect(UBFM, rd, rn, (w.Bits() - k) % w.Bits(), w.Bits() - 1 - k, s);
    ShiftedEffect(LSL, rd, rn, k, s);
    if k == 0 {
      MoveSelects(v, 0, w.Bits() - 1, w);
      WholeField(v, 0, w);
      ShiftNone(v % w.Modulus(), w);
    } else {
      WrappedMove(v, k, w);
      ShiftTruncates(v, k, w);
    }
  }

  lemma ShiftNone(v: nat, w: Width)
    requires v < w.Modulus()
    ensures ShiftLeft(v, 0, w) == v
  {
    assert Pow2(0) == 1;
  }

  lemma WrappedMove(v: uint64, k: nat, w: Width)
    requires 0 < k < w.Bits()
    ensures v % Pow2(w.Bits() - k) <= v
    ensures MoveValue(false, v, w.Bits() - k, w.Bits() - 1 - k, w) ==
            ShiftLeft(v % Pow2(w.Bits() - k), k, W64) % w.Modulus()
  {
    hide And64, FieldMask, ShiftLeft, Pow2;
    RemainderBelow(v, Pow2(w.Bits() - k));
    MaskSelects(v, w.Bits() - k, w);
    assert And64(v, FieldMask(w.Bits() - k, w)) == v % Pow2(w.Bits() - k);
  }

  lemma RemainderBelow(v: nat, p: nat)
    requires p > 0
    ensures 0 <= v % p <= v
  {
    if v < p {
      DivModUnique(v, p, 0, v);
    }
  }

  /** ASR by k is SBFM from bit k to the top. */
  lemma AsrIsSbfm(rd: Operand, rn: Operand, k: uint64, s: Regs)
    requires IsReg(rd) && k < DestWidth(rd).Bits()
    ensures DataEffect(Move(SBFM, rd, rn, k, DestWidth(rd).Bits() - 1), s) == DataEffect(Shifted(ASR, rd, rn, k), s)
  {
    hide OperandVal, DataEffect, MoveValue, Field, SignExtend, ShiftRightArith;
    var v, w := OperandVal(rn, s), DestWidth(rd);
    MoveEffect(SBFM, rd, rn, k, w.Bits() - 1, s);
    ShiftedEffect(ASR, rd, rn, k, s);
    MoveExtends(v, k, w.Bits() - 1, w);
    FieldOfWord(v, k, w);
    ArithShiftExtends(v % w.Modulus(), k, w);
  }

  /** The sign-extension opcode of a field width. */
  function ExtendOp(bits: nat): Op { if bits == 8 then SXTB else if bits == 16 then SXTH else SXTW }

  /** SXTB, SXTH and SXTW leave the registers that SBFM of bits 0 to 7, 15 and 31 leaves. */
  lemma SxtIsSbfm(rd: Reg, rn: Operand, bits: uint64, s: Regs)
    requires bits in {8, 16, 32} && (rd.X? || rd.W? || rd.XZR? || rd.WZR?) && bits <= rd.Width().Bits()
    ensures Apply(DataEffect(Move(SBFM, RegOp(rd), rn, 0, bits - 1), s), s) ==
            Apply(DataEffect(Inst(ExtendOp(bits), [RegOp(rd), rn]), s), s)
  {
    hide OperandVal, SignExtend, MoveValue, DataEffect, Field, GetReg, Apply, WriteTo;
    var v := OperandVal(rn, s);
    MoveEffect(SBFM, RegOp(rd), rn, 0, bits - 1, s);
    MoveExtends(v, 0, bits - 1, rd.Width());
    ExtendOfField(v, bits);
    ExtendEffectIs(rd, rn, bits, s);
    ApplyTruncated(rd, SignExtend(v, bits), s);
  }

  /** A write truncated to the register's width leaves what the whole write leaves. */
  lemma ApplyTruncated(rd: Reg, x: uint64, s: Regs)
    requires rd.X? || rd.W? || rd.XZR? || rd.WZR?
    ensures Apply(WriteTo(Some(rd), x % rd.Width().Modulus()), s) == Apply(WriteTo(Some(rd), x), s)
  {
    assert x % TWO64 == x;
  }

  lemma ExtendEffectIs(rd: Reg, rn: Operand, bits: uint64, s: Regs)
    requires bits in {8, 16, 32}
    ensures DataEffect(Inst(ExtendOp(bits), [RegOp(rd), rn]), s) == WriteTo(Some(rd), SignExtend(OperandVal(rn, s), bits))
  {
    hide OperandVal, SignExtend;
  }

  function LowBits(v: uint64, bits: nat): uint64 {
    if bits == 8 then v % 0x100 else if bits == 16 then v % 0x1_0000 else v % TWO32
  }

  function ZeroExtendOp(bits: nat): Op { if bits == 8 then UXTB else if bits == 16 then UXTH else UXTW }

  /** UXTB, UXTH and UXTW leave the registers that UBFM of bits 0 to 7, 15 and 31 leaves. */
  lemma UxtIsUbfm(rd: Reg, rn: Operand, bits: uint64, s: Regs)
    requires bits in {8, 16, 32} && (rd.X? || rd.W? || rd.XZR? || rd.WZR?) && bits <= rd.Width().Bits()
    ensures Apply(DataEffect(Move(UBFM, RegOp(rd), rn, 0, bits - 1), s), s) ==
            Apply(DataEffect(Inst(ZeroExtendOp(bits), [RegOp(rd), rn]), s), s)
  {
    hide OperandVal, MoveValue, DataEffect, Field, GetReg, Apply, WriteTo, LowBits;
    var v := OperandVal(rn, s);
    MoveEffect(UBFM, RegOp(rd), rn, 0, bits - 1, s);
    MoveSelects(v, 0, bits - 1, rd.Width());
    LowField(v, bits);
    ZeroExtendEffectIs(rd, rn, bits, s);
    LowBitsFit(v, bits, rd.Width());
  }

  lemma LowField(v: uint64, bits: nat)
    requires bits in {8, 16, 32}
    ensures Field(v, 0, bits) == LowBits(v, bits)
  {
    hide Pow2;
    PowZero();
    Pow2Widths();
    assert v / 1 == v;
  }

  lemma LowBitsFit(v: uint64, bits: nat, w: Width)
    requires bits in {8, 16, 32} && bits <= w.Bits()
    ensures LowBits(v, bits) < w.Modulus()
  {
  }

  lemma ZeroExtendEffectIs(rd: Reg, rn: Operand, bits: uint64, s: Regs)
    requires bits in {8, 16, 32}
    ensures DataEffect(Inst(ZeroExtendOp(bits), [RegOp(rd), rn]), s) == WriteTo(Some(rd), LowBits(OperandVal(rn, s), bits))
  {
    hide OperandVal;
  }

  lemma ExtendOfField(v: uint64, bits: nat)
    requires 0 < bits <= 64
    ensures SignExtend(Field(v, 0, bits), bits) == SignExtend(v, bits)
  {
    hide Pow2;
    PowZero();
    var p := Pow2(bits);
    assert v / 1 == v;
    DivModUnique(v % p, p, 0, v % p);
  }

  /** EXTR with equal sources is a rotate. */
  lemma ExtrIsRor(rd: Operand, rn: Operand, k: uint64, s: Regs)
    requires IsReg(rd) && k < DestWidth(rd).Bits()
    ensures DataEffect(Inst(EXTR, [rd, rn, rn, Const(k)]), s) == DataEffect(Shifted(ROR, rd, rn, k), s)
  {
    hide OperandVal, RotateRight, DoubleShiftRight;
    var w := DestWidth(rd);
    ConstValue(k, s);
    ShiftedEffect(ROR, rd, rn, k, s);
    DoubleShiftRotates(OperandVal(rn, s) % w.Modulus(), k, w);
    assert k % TWO32 % (2 * w.Bits()) == k;
  }
}
