/** Wide products and remainders, as the multiply and divide instructions compute them together. */
module WideArithmetic {
  import opened Words
  import opened Machine
  import opened Alu

  function Written(e: Effect): uint64
    requires e.write.Some?
  {
    e.write.value.1
  }

  // ---------- congruences ----------

  /** The signed reading differs from the word by a multiple of the modulus. */
  lemma SignedCongruent(a: nat, w: Width)
    requires a < w.Modulus()
    ensures Signed(a, w) == a - (if a < w.Half() then 0 else 1) * w.Modulus()
    ensures Signed(a, w) % w.Modulus() == a
  {
  }

  lemma MulCongruentLeft(a: int, c: int, i: int, m: int)
    requires m > 0
    ensures ((a - i * m) * c) % m == (a * c) % m
  {
    assert (a - i * m) * c == a * c + (0 - i * c) * m;
    ModAddMultiple(a * c, 0 - i * c, m);
  }

  lemma MulCongruent(a: int, b: int, i: int, j: int, m: int)
    requires m > 0
    ensures ((a - i * m) * (b - j * m)) % m == (a * b) % m
  {
    MulCongruentLeft(a, b - j * m, i, m);
    MulCongruentLeft(b, a, j, m);
    assert a * (b - j * m) == (b - j * m) * a && a * b == b * a;
  }

  lemma SubCongruent(a: int, b: int, x: int, y: int, m: int)
    requires m > 0 && a % m == b % m && x % m == y % m
    ensures (a - x) % m == (b - y) % m
  {
    var k := (a / m - b / m) - (x / m - y / m);
    assert a == (a / m) * m + a % m && b == (b / m) * m + b % m;
    assert x == (x / m) * m + x % m && y == (y / m) * m + y % m;
    assert k * m == (a / m) * m - (b / m) * m - (x / m) * m + (y / m) * m;
    ModAddMultiple(b - y, k, m);
  }

  lemma SignedProductCongruent(a: nat, b: nat, w: Width)
    requires a < w.Modulus() && b < w.Modulus()
    ensures (Signed(a, w) * Signed(b, w)) % w.Modulus() == (a * b) % w.Modulus()
  {
    MulCongruent(a, b, if a < w.Half() then 0 else 1, if b < w.Half() then 0 else 1, w.Modulus());
  }

  // ---------- products ----------

  lemma HighFits(a: uint64, b: uint64)
    ensures 0 <= a * b / TWO64 < TWO64
  {
    MulMonotone(a, TWO64 - 1, b);
    DivBelow(a * b, TWO64, TWO64);
    MulMonotone(0, a, b);
    DivAtLeast(a * b, TWO64, 0);
  }

  lemma SignedHighFits(x: int, y: int)
    requires 0 - TWO63 <= x < TWO63 && 0 - TWO63 <= y < TWO63
    ensures 0 - TWO63 <= x * y / TWO64 < TWO63
  {
    ProductBound(x, y, TWO63);
    DivBelow(x * y, TWO64, TWO63);
    DivAtLeast(x * y, TWO64, 0 - TWO63);
  }

  lemma ProductBound(x: int, y: int, h: int)
    requires 0 <= h && 0 - h <= x <= h && 0 - h <= y <= h
    ensures 0 - h * h <= x * y <= h * h
  {
    if y >= 0 {
      MulMonotone(x, h, y);
      MulMonotone(0 - h, x, y);
      MulMonotone(y, h, h);
    } else {
      MulMonotone(x, h, -y);
      MulMonotone(0 - h, x, -y);
      MulMonotone(-y, h, h);
    }
  }

  lemma ProductEffects(hi: Reg, lo: Reg, op1: Operand, op2: Operand, s: Regs)
    ensures var a, b := OperandVal(op1, s), OperandVal(op2, s);
            && DataEffect(Inst(UMULH, [RegOp(hi), op1, op2]), s) == WriteTo(Some(hi), Wrap64(a * b / TWO64))
            && DataEffect(Inst(SMULH, [RegOp(hi), op1, op2]), s) ==
               WriteTo(Some(hi), Wrap64(Signed(a, W64) * Signed(b, W64) / TWO64))
            && DataEffect(Inst(MUL, [RegOp(lo), op1, op2]), s) == WriteTo(Some(lo), Wrap64(a * b))
  {
    hide OperandVal, Wrap64, Signed;
  }

  lemma SplitHigh(x: int)
    requires 0 <= x / TWO64 < TWO64
    ensures Wrap64(x / TWO64) * TWO64 + Wrap64(x) == x
  {
  }

  /** UMULH and MUL of the same operands are the two halves of the exact unsigned product. */
  lemma UnsignedProduct(hi: Reg, lo: Reg, op1: Operand, op2: Operand, s: Regs)
    ensures var h := DataEffect(Inst(UMULH, [RegOp(hi), op1, op2]), s);
            var l := DataEffect(Inst(MUL, [RegOp(lo), op1, op2]), s);
            && h.write.Some? && l.write.Some?
            && Written(h) * TWO64 + Written(l) == OperandVal(op1, s) * OperandVal(op2, s)
  {
    hide OperandVal, DataEffect, Wrap64;
    ProductEffects(hi, lo, op1, op2, s);
    HighFits(OperandVal(op1, s), OperandVal(op2, s));
    SplitHigh(OperandVal(op1, s) * OperandVal(op2, s));
  }

  /** Signed SMULH and unsigned MUL of the same operands make the exact signed product. */
  lemma SignedProduct(hi: Reg, lo: Reg, op1: Operand, op2: Operand, s: Regs)
    ensures var h := DataEffect(Inst(SMULH, [RegOp(hi), op1, op2]), s);
            var l := DataEffect(Inst(MUL, [RegOp(lo), op1, op2]), s);
            && h.write.Some? && l.write.Some?
            && Signed(Written(h), W64) * TWO64 + Written(l) ==
               Signed(OperandVal(op1, s), W64) * Signed(OperandVal(op2, s), W64)
  {
    hide OperandVal, Signed, DataEffect;
    var a, b := OperandVal(op1, s), OperandVal(op2, s);
    ProductEffects(hi, lo, op1, op2, s);
    SignedRange(a);
    SignedRange(b);
    SignedHighFits(Signed(a, W64), Signed(b, W64));
    SignedProductCongruent(a, b, W64);
    SignedOfWrapped(Signed(a, W64) * Signed(b, W64) / TWO64);
  }

  lemma SignedRange(a: uint64)
    ensures 0 - TWO63 <= Signed(a, W64) < TWO63
  {
  }

  lemma SignedOfWrapped(x: int)
    requires 0 - TWO63 <= x < TWO63
    ensures Signed(Wrap64(x), W64) == x
  {
  }

  // ---------- quotient and remainder ----------

  predicate General(r: Reg, w: Width) { (r.X? || r.W? || r.XZR? || r.WZR?) && r.Width() == w }

  /** A quotient into `rq`, then `ra - rq * rb` into `rr`. */
  function DivideThenMultiply(op: Op, rq: Reg, ra: Reg, rb: Reg, rr: Reg, s: Regs): (Regs, Regs)
    requires op in {UDIV, SDIV}
  {
    var s1 := Apply(DataEffect(Inst(op, [RegOp(rq), RegOp(ra), RegOp(rb)]), s), s);
    (s1, Apply(DataEffect(Inst(MSUB, [RegOp(rr), RegOp(rq), RegOp(rb), RegOp(ra)]), s1), s1))
  }

  /** The registers of the idiom: one width, the quotient not written over a source. */
  predicate DivideForm(rq: Reg, ra: Reg, rb: Reg, rr: Reg, w: Width) {
    && General(rq, w) && General(ra, w) && General(rb, w) && General(rr, w)
    && (rq.X? || rq.W?) && (rr.X? || rr.W?) && rq != ra && rq != rb
  }

  lemma SourceKept(rq: Reg, r: Reg, w: Width, val: uint64, s: Regs)
    requires General(rq, w) && General(r, w) && (rq.X? || rq.W?) && r != rq
    ensures GetReg(r, SetReg(rq, val, s)) == GetReg(r, s)
    ensures GetReg(r, s) < w.Modulus()
  {
  }

  lemma DestHolds(r: Reg, w: Width, val: uint64, s: Regs)
    requires General(r, w) && (r.X? || r.W?)
    ensures GetReg(r, SetReg(r, val, s)) == val % w.Modulus()
  {
  }

  /** What the idiom leaves, for a quotient `q`: the remainder register holds a - q * b modulo the width. */
  lemma IdiomLeaves(op: Op, rq: Reg, ra: Reg, rb: Reg, rr: Reg, w: Width, q: uint64, s: Regs)
    requires op in {UDIV, SDIV} && DivideForm(rq, ra, rb, rr, w) && q < w.Modulus()
    requires DivEffect(op, [RegOp(rq), RegOp(ra), RegOp(rb)], s) == WriteTo(Some(rq), q)
    ensures var (s1, s2) := DivideThenMultiply(op, rq, ra, rb, rr, s);
            && GetReg(rq, s1) == q
            && GetReg(rr, s2) == (GetReg(ra, s) - q * GetReg(rb, s)) % w.Modulus()
  {
    hide GetReg, SetReg, DivEffect, DataEffect, Wrap64;
    var a, b := GetReg(ra, s), GetReg(rb, s);
    DivDispatch(op, [RegOp(rq), RegOp(ra), RegOp(rb)], s);
    DestHolds(rq, w, q, s);
    SourceKept(rq, ra, w, q, s);
    SourceKept(rq, rb, w, q, s);
    var s1 := SetReg(rq, q, s);
    assert Apply(WriteTo(Some(rq), q), s) == s1;
    assert q % w.Modulus() == q by { DivModUnique(q, w.Modulus(), 0, q); }
    SubtractProduct(rr, rq, rb, ra, w, s1);
    DestHolds(rr, w, Wrap64(a - q * b), s1);
    WrapMod(a - q * b, w);
  }

  lemma DivDispatch(op: Op, ops: seq<Operand>, s: Regs)
    requires op in {UDIV, SDIV}
    ensures DataEffect(Inst(op, ops), s) == DivEffect(op, ops, s)
  {
    hide DivEffect;
  }

  lemma SubtractProduct(rr: Reg, rq: Reg, rb: Reg, ra: Reg, w: Width, s: Regs)
    requires General(rr, w) && General(rq, w) && General(rb, w) && General(ra, w)
    ensures DataEffect(Inst(MSUB, [RegOp(rr), RegOp(rq), RegOp(rb), RegOp(ra)]), s) ==
            WriteTo(Some(rr), Wrap64(GetReg(ra, s) - GetReg(rq, s) * GetReg(rb, s)))
  {
    hide Wrap64, Narrow, GetReg;
    NarrowGeneral(rr, rq, w, s);
    NarrowGeneral(rr, rb, w, s);
    NarrowGeneral(rr, ra, w, s);
  }

  lemma NarrowGeneral(rr: Reg, r: Reg, w: Width, s: Regs)
    requires General(rr, w) && General(r, w)
    ensures Narrow(OperandVal(RegOp(r), s), rr) == GetReg(r, s)
  {
  }

  /**
   UDIV then MSUB: the quotient and remainder of the unsigned values, the remainder below the divisor. A zero
   divisor gives quotient 0 and the dividend itself as remainder.
   */
  lemma UnsignedRemainder(rq: Reg, ra: Reg, rb: Reg, rr: Reg, w: Width, s: Regs)
    requires DivideForm(rq, ra, rb, rr, w)
    ensures var (s1, s2) := DivideThenMultiply(UDIV, rq, ra, rb, rr, s);
            var a, b, q, r := GetReg(ra, s), GetReg(rb, s), GetReg(rq, s1), GetReg(rr, s2);
            && a == q * b + r
            && (b != 0 ==> r < b)
            && (b == 0 ==> q == 0)
  {
    hide GetReg, SetReg, DataEffect, Apply, DivideThenMultiply, DivEffect, WriteTo;
    var a, b := GetReg(ra, s), GetReg(rb, s);
    var q := if b == 0 then 0 else a / b;
    UnsignedQuotient(rq, ra, rb, w, s);
    IdiomLeaves(UDIV, rq, ra, rb, rr, w, q, s);
    SourceKept(rq, ra, w, 0, s);
    UnsignedRest(a, b, w.Modulus());
  }

  lemma UnsignedRest(a: nat, b: nat, m: nat)
    requires a < m
    ensures var q := if b == 0 then 0 else a / b;
            && (b != 0 ==> 0 <= a - q * b < b)
            && (a - q * b) % m == a - q * b
  {
    if b == 0 {
      DivModUnique(a, m, 0, a);
    } else {
      assert a - (a / b) * b == a % b;
      QuotientLeaves(a, b);
      DivModUnique(a % b, m, 0, a % b);
    }
  }

  lemma QuotientLeaves(a: nat, b: nat)
    requires b > 0
    ensures 0 <= a % b <= a
  {
    if a / b >= 1 { MulMonotone(0, a / b, b); } else { DivAtLeast(a, b, 0); }
  }

  lemma UnsignedQuotient(rq: Reg, ra: Reg, rb: Reg, w: Width, s: Regs)
    requires General(rq, w) && General(ra, w) && General(rb, w)
    ensures var a, b := GetReg(ra, s), GetReg(rb, s);
            var q := if b == 0 then 0 else a / b;
            && 0 <= q < w.Modulus()
            && DivEffect(UDIV, [RegOp(rq), RegOp(ra), RegOp(rb)], s) == WriteTo(Some(rq), q)
  {
    var a, b := GetReg(ra, s), GetReg(rb, s);
    assert a % w.Modulus() == a && b % w.Modulus() == b;
    if b != 0 {
      QuotientBelow(a, b);
    }
  }

  /**
   SDIV then MSUB, away from a zero divisor and from the overflowing quotient: the quotient truncates toward
   zero, and the remainder has magnitude below the divisor's and the dividend's sign or is zero.
   */
  lemma SignedRemainder(rq: Reg, ra: Reg, rb: Reg, rr: Reg, w: Width, s: Regs)
    requires DivideForm(rq, ra, rb, rr, w)
    requires GetReg(rb, s) != 0 && !DivideOverflows([RegOp(rq), RegOp(ra), RegOp(rb)], s)
    ensures var (s1, s2) := DivideThenMultiply(SDIV, rq, ra, rb, rr, s);
            var a, b := Signed(GetReg(ra, s), w), Signed(GetReg(rb, s), w);
            var q, r := Signed(GetReg(rq, s1), w), Signed(GetReg(rr, s2), w);
            && a == q * b + r
            && Magnitude(r) < Magnitude(b)
            && (r != 0 ==> (r < 0) == (a < 0))
  {
    hide GetReg, SetReg, DataEffect, Apply, DivideThenMultiply, DivideOverflows, TruncDiv, DivEffect, WriteTo;
    var ua, ub := GetReg(ra, s), GetReg(rb, s);
    SourceKept(rq, ra, w, 0, s);
    SourceKept(rq, rb, w, 0, s);
    SignedSources(rq, ra, rb, w, s);
    var a, b := Signed(ua, w), Signed(ub, w);
    TruncDivides(a, b, w);
    var q := TruncDiv(a, b);
    var uq := q % w.Modulus();
    SignedQuotient(rq, ra, rb, w, s);
    IdiomLeaves(SDIV, rq, ra, rb, rr, w, uq, s);
    SignedOfMod(q, w);
    RemainderWord(ua, ub, q, w);
    SignedOfMod(a - q * b, w);
  }

  function Magnitude(x: int): nat { if x < 0 then -x else x }

  lemma SignedSources(rq: Reg, ra: Reg, rb: Reg, w: Width, s: Regs)
    requires General(rq, w) && General(ra, w) && General(rb, w) && (rq.X? || rq.W?)
    requires GetReg(rb, s) != 0 && !DivideOverflows([RegOp(rq), RegOp(ra), RegOp(rb)], s)
    ensures GetReg(ra, s) < w.Modulus() && GetReg(rb, s) < w.Modulus()
    ensures !(Signed(GetReg(ra, s), w) == 0 - w.Half() && Signed(GetReg(rb, s), w) == -1)
    ensures Signed(GetReg(rb, s), w) != 0
  {
  }

  lemma SignedQuotient(rq: Reg, ra: Reg, rb: Reg, w: Width, s: Regs)
    requires General(rq, w) && General(ra, w) && General(rb, w) && GetReg(rb, s) != 0
    ensures Signed(GetReg(rb, s), w) != 0
    ensures DivEffect(SDIV, [RegOp(rq), RegOp(ra), RegOp(rb)], s) ==
            WriteTo(Some(rq), TruncDiv(Signed(GetReg(ra, s), w), Signed(GetReg(rb, s), w)) % w.Modulus())
  {
    hide TruncDiv;
    assert GetReg(ra, s) % w.Modulus() == GetReg(ra, s) && GetReg(rb, s) % w.Modulus() == GetReg(rb, s);
  }

  lemma SignedOfMod(x: int, w: Width)
    requires 0 - w.Half() <= x < w.Half()
    ensures 0 <= x % w.Modulus() < w.Modulus() && Signed(x % w.Modulus(), w) == x
  {
  }

  lemma TruncRemainder(a: int, b: int)
    requires b != 0
    ensures Magnitude(TruncDiv(a, b)) == Magnitude(a) / Magnitude(b)
    ensures a - TruncDiv(a, b) * b == if a < 0 then 0 - Magnitude(a) % Magnitude(b) else Magnitude(a) % Magnitude(b)
    ensures (a < 0) == (b < 0) ==> TruncDiv(a, b) >= 0
    ensures (a < 0) != (b < 0) ==> TruncDiv(a, b) <= 0
  {
    var x: int, y: int := Magnitude(a), Magnitude(b);
    var p: int := x / y;
    DivAtLeast(x, y, 0);
    assert x == p * y + x % y;
    SignedProducts(p, b);
  }

  lemma SignedProducts(p: int, b: int)
    ensures (0 - p) * b == 0 - p * b && p * (0 - b) == 0 - p * b && (0 - p) * (0 - b) == p * b
  {
  }

  lemma QuotientFits(x: nat, y: nat, half: nat)
    requires 0 < y && x <= half && half > 0
    ensures 0 <= x / y <= half && (y >= 2 || x < half ==> x / y < half)
  {
    QuotientBelow(x, y);
    if y >= 2 && x > 0 {
      DivBelow(x, y, half) by { MulMonotone(2, y, half); }
    }
  }

  /** Truncated division leaves a small remainder of the dividend's sign, and fits unless it is the minimum over -1. */
  lemma TruncDivides(a: int, b: int, w: Width)
    requires 0 - w.Half() <= a < w.Half() && 0 - w.Half() <= b < w.Half() && b != 0
    requires !(a == 0 - w.Half() && b == -1)
    ensures var q := TruncDiv(a, b);
            var r := a - q * b;
            && 0 - w.Half() <= q < w.Half() && Magnitude(r) < Magnitude(b)
            && (r != 0 ==> (r < 0) == (a < 0))
            && 0 - w.Half() <= r < w.Half()
  {
    hide TruncDiv;
    TruncRemainder(a, b);
    QuotientFits(Magnitude(a), Magnitude(b), w.Half());
  }

  lemma RemainderWord(ua: nat, ub: nat, q: int, w: Width)
    requires ua < w.Modulus() && ub < w.Modulus()
    ensures (ua - (q % w.Modulus()) * ub) % w.Modulus() == (Signed(ua, w) - q * Signed(ub, w)) % w.Modulus()
  {
    var m := w.Modulus();
    var j: int := if ub < w.Half() then 0 else 1;
    assert q % m == q - (q / m) * m;
    SignedCongruent(ua, w);
    SignedCongruent(ub, w);
    MulCongruent(q, Signed(ub, w), q / m, 0 - j, m);
    assert Signed(ub, w) - (0 - j) * m == ub;
    assert ua % m == Signed(ua, w) % m by { DivModUnique(ua, m, 0, ua); }
    SubCongruent(ua, Signed(ua, w), (q % m) * ub, q * Signed(ub, w), m);
  }

  /** MUL leaves what MADD with a zero addend leaves, at both widths. */
  lemma MulIsMadd(rd: Reg, ra: Reg, rb: Reg, w: Width, s: Regs)
    requires General(rd, w) && General(ra, w) && General(rb, w)
    ensures var zero := if w == W32 then WZR else XZR;
            Apply(DataEffect(Inst(MUL, [RegOp(rd), RegOp(ra), RegOp(rb)]), s), s) ==
            Apply(DataEffect(Inst(MADD, [RegOp(rd), RegOp(ra), RegOp(rb), RegOp(zero)]), s), s)
  {
    hide GetReg, SetReg, Wrap64;
    NarrowGeneral(rd, ra, w, s);
    NarrowGeneral(rd, rb, w, s);
    assert GetReg(XZR, s) == 0 && GetReg(WZR, s) == 0 by { ZeroReads(s); }
  }

  lemma ZeroReads(s: Regs)
    ensures GetReg(XZR, s) == 0 && GetReg(WZR, s) == 0
  {
  }
}
