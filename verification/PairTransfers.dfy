/** The addresses of memory operands, and pair stores and loads from any base register at both widths. */
module PairTransfers {
  import opened Words
  import opened Memory
  import opened Footprint
  import opened Machine
  import opened Alu
  import opened Interp
  import opened Bitfields
  import opened Bits
  import opened Meanings

  // ---------- addresses ----------

  /** A base register: the address arithmetic is in 64 bits. */
  predicate IsBase(r: Reg) { r.X? || r.SP? }

  /** The operand's address modulo 2^64: with no register changed, or with the base alone moved to `to`. */
  predicate Kept(a: Address, addr: int, s: Regs) { a.addr == Some(addr % TWO64) && a.regs == s }

  predicate Moved(a: Address, addr: int, base: Reg, to: int, s: Regs) {
    a.addr == Some(addr % TWO64) && Leaves(a.regs, s, base, to % TWO64)
  }

  /**
   The immediate forms, for every base register and offset, and labels: plain, signed offset, pre-index, which writes the
   address back, and post-index, which uses the base and then writes the sum back.
   */
  lemma ImmediateAddresses(base: Reg, imm: Imm, s: Regs)
    requires IsBase(base)
    ensures var b, off := GetReg(base, s), imm.ToI64();
            && Kept(MemAddr(MemReg(base), s), b, s) && Kept(MemAddr(RegOp(base), s), b, s) && Kept(MemAddr(QualReg(base), s), b, s)
            && Kept(MemAddr(Label(imm), s), off, s)
            && Kept(MemAddr(MemOffset(base, imm), s), b + off, s)
            && Moved(MemAddr(MemPreIdx(base, imm), s), b + off, base, b + off, s)
            && Moved(MemAddr(MemPostIdxImm(base, imm), s), b, base, b + off, s)
  {
    WrapSmall(GetReg(base, s));
    SameRemainder(imm);
  }

  lemma SameRemainder(imm: Imm)
    ensures imm.ToU64() % TWO64 == imm.ToI64() % TWO64 == imm.ToU64()
  {
  }

  /** What an index register stands for under its extension, as a number. */
  function IndexValue(index: Reg, sh: Option<Shift>, s: Regs): int {
    var v := GetReg(index, s);
    match sh
    case None => v
    case Some(Uxtw(k)) => v % TWO32 * Pow2(k % 64)
    case Some(Sxtw(k)) => Signed(v % TWO32, W32) * Pow2(k % 64)
    case Some(e) => v * Pow2(e.amt % 64)
  }

  /**
   The register forms: the base plus the index, which is shifted left, or zero- or sign-extended from 32 bits
   and then shifted; and post-index, which uses the base and writes base plus index back.
   */
  lemma IndexedAddresses(base: Reg, index: Reg, sh: Option<Shift>, s: Regs)
    requires IsBase(base)
    requires sh.Some? ==> sh.value.Uxtw? || sh.value.Sxtw? || sh.value.Uxtx? || sh.value.Sxtx? || (sh.value.Lsl? && index.X?)
    ensures Kept(MemAddr(MemExt(base, index, sh), s), GetReg(base, s) + IndexValue(index, sh, s), s)
    ensures Moved(MemAddr(MemPostIdxReg(base, index), s), GetReg(base, s), base, GetReg(base, s) + GetReg(index, s), s)
  {
    hide EvalShift, IndexValue, Pow2;
    WrapSmall(GetReg(base, s));
    if sh.Some? {
      ExtendedIndex(index, sh.value, s);
      SumCongruent(GetReg(base, s), EvalShift(GetReg(index, s), index.Width(), sh.value), IndexValue(index, sh, s), TWO64);
    } else {
      assert IndexValue(index, sh, s) == GetReg(index, s) by { PlainIndex(index, s); }
    }
  }

  lemma PlainIndex(index: Reg, s: Regs)
    ensures IndexValue(index, None, s) == GetReg(index, s)
  {
  }

  lemma ExtendedIndex(index: Reg, sh: Shift, s: Regs)
    requires sh.Uxtw? || sh.Sxtw? || sh.Uxtx? || sh.Sxtx? || (sh.Lsl? && index.X?)
    ensures EvalShift(GetReg(index, s), index.Width(), sh) % TWO64 == IndexValue(index, Some(sh), s) % TWO64
  {
    hide Pow2, ShiftLeft, SignExtend, GetReg;
    var v, k := GetReg(index, s), sh.amt % 64;
    WrapSmall(v);
    ShiftedMod(v, k);
    ShiftedMod(v % TWO32, k);
    if sh.Sxtw? {
      var x := Signed(v % TWO32, W32);
      assert SignExtend(v, 32) == Wrap64(x) by { ExtendedWord(v); }
      ShiftedMod(Wrap64(x), k);
      ModMulLeft(x, Pow2(k), TWO64);
    }
  }

  lemma ShiftedMod(x: nat, k: nat)
    ensures ShiftLeft(x, k, W64) % TWO64 == x * Pow2(k) % TWO64
  {
    ModTwice(x * Pow2(k), TWO64);
  }

  lemma ExtendedWord(v: uint64)
    ensures SignExtend(v, 32) == Wrap64(Signed(v % TWO32, W32))
  {
    Pow2Widths();
  }

  // ---------- one store and one load ----------

  /** Two registers of one width, general or zero. */
  predicate PairOf(r1: Reg, r2: Reg, w: Width) { Plain(r1, w) && Plain(r2, w) }

  predicate Plain(r: Reg, w: Width) { (r.X? || r.W? || r.XZR? || r.WZR?) && r.Width() == w }

  function Bytes(w: Width): nat { w.Bits() / 8 }

  /** The little-endian encoding of `v` lies at `a`. */
  predicate Lies(m: seq<Segment>, a: nat, v: uint64, w: Width) { ReadSpec(m, a, Bytes(w)) == Some(Le(v, Bytes(w))) }

  /** A pair store through an operand whose address is known. */
  lemma StoreAt(r1: Reg, r2: Reg, w: Width, o: Operand, a: uint64, regs: Regs, s: Regs, m: seq<Segment>)
    requires PairOf(r1, r2, w) && MemAddr(o, s) == Address(regs, Some(a)) && Mapped(m, a, 2 * Bytes(w))
    ensures var n, p := Bytes(w), StorePair([RegOp(r1), RegOp(r2), o], s, m);
            && p.ok && p.regs == regs
            && ChangesOnly(m, p.segments, a, a + 2 * n)
            && Lies(p.segments, a, GetReg(r1, regs), w) && Lies(p.segments, a + n, GetReg(r2, regs), w)
  {
    hide MemAddr, WriteSpec, ReadSpec, ByteAt, Le, GetReg, Mapped;
    var n := Bytes(w);
    var v1, v2 := Le(GetReg(r1, regs), n), Le(GetReg(r2, regs), n);
    MappedPart(m, a, 2 * n, a, n);
    WriteChangesOnly(m, a, v1);
    var m1 := WriteSpec(m, a, v1).segments;
    MappedStays(m, m1, a, a + n, a, 2 * n);
    MappedPart(m1, a, 2 * n, a + n, n);
    SecondWord(m1, a + n, n);
    WriteChangesOnly(m1, a + n, v2);
    var m2 := WriteSpec(m1, a + n, v2).segments;
    ReadCongruence(m1, m2, a, n);
    ChangesCompose(m, m1, m2, a, a + 2 * n, a, a + n, a + n, a + 2 * n);
  }

  /** Mapped addresses do not wrap. */
  lemma SecondWord(m: seq<Segment>, a: nat, n: nat)
    requires Mapped(m, a, n) && n > 0
    ensures a < TWO64 && Wrap64(a) == a
  {
    var b := ReadSpec(m, a, n);
    assert b.Some?;
  }

  lemma LoadAt(r1: Reg, r2: Reg, w: Width, o: Operand, a: uint64, regs: Regs, v1: uint64, v2: uint64, s: Regs, m: seq<Segment>)
    requires PairOf(r1, r2, w) && MemAddr(o, s) == Address(regs, Some(a))
    requires v1 < w.Modulus() && v2 < w.Modulus() && Lies(m, a, v1, w) && Lies(m, a + Bytes(w), v2, w)
    ensures LoadPair([RegOp(r1), RegOp(r2), o], s, m) == PairResult(SetReg(r2, v2, SetReg(r1, v1, regs)), m, true)
  {
    hide MemAddr, ReadSpec, ByteAt, Le, SetReg, LoadedWord;
    var n := Bytes(w);
    WordBack(v1, w);
    WordBack(v2, w);
    SecondWord(m, a + n, n);
  }

  lemma WordBack(v: uint64, w: Width)
    requires v < w.Modulus()
    ensures LoadedWord(Le(v, Bytes(w))) == v
  {
    hide Le, FromLe, Pow2;
    Pow2Widths();
    FromLeLe(v, Bytes(w));
  }

  // ---------- steps ----------

  function Pair(r1: Reg, r2: Reg, base: Reg, imm: Imm): seq<Operand> { [RegOp(r1), RegOp(r2), MemOffset(base, imm)] }

  lemma PairStep(env: Env, s: State, op: Op, r1: Reg, r2: Reg, w: Width, base: Reg, imm: Imm)
    requires (op == STP || op == LDP) && PairOf(r1, r2, w) && Executes(env, s, Inst(op, Pair(r1, r2, base, imm)))
    ensures s.ctx.pc + 4 < TWO64
    ensures op == STP ==> Step(env, s) == AfterPair(s, StorePair(Pair(r1, r2, base, imm), s.ctx.regs, s.mem.segments))
    ensures op == LDP ==> Step(env, s) == AfterPair(s, LoadPair(Pair(r1, r2, base, imm), s.ctx.regs, s.mem.segments))
  {
    hide Fetch, IsZeroLine, StorePair, LoadPair, AfterPair;
    var i := Inst(op, Pair(r1, r2, base, imm));
    assert !VectorForm(i) && !VectorPair(i) && !IsData(op) && !IsControl(op);
  }

  /** The address that the signed offset gives. */
  function OffsetAddress(base: Reg, imm: Imm, s: Regs): uint64 { (GetReg(base, s) + imm.ToI64()) % TWO64 }

  /**
   STP at a signed offset from any base register: both registers' values lie side by side at base plus offset,
   no other byte changes, and no register does.
   */
  lemma StoreStep(env: Env, s: State, r1: Reg, r2: Reg, w: Width, base: Reg, imm: Imm)
    requires PairOf(r1, r2, w) && Executes(env, s, Inst(STP, Pair(r1, r2, base, imm)))
    requires Mapped(s.mem.segments, OffsetAddress(base, imm, s.ctx.regs), 2 * Bytes(w))
    ensures s.ctx.pc + 4 < TWO64
    ensures var a, t := OffsetAddress(base, imm, s.ctx.regs), Step(env, s).state;
            && Step(env, s).outcome == Continue
            && t == At(s, s.ctx.regs, s.ctx.pc + 4).(mem := t.mem) && t.mem == s.mem.(segments := t.mem.segments)
            && ChangesOnly(s.mem.segments, t.mem.segments, a, a + 2 * Bytes(w))
            && Lies(t.mem.segments, a, GetReg(r1, s.ctx.regs), w)
            && Lies(t.mem.segments, a + Bytes(w), GetReg(r2, s.ctx.regs), w)
  {
    hide Fetch, Executes, Step, Lies, ChangesOnly, GetReg, Mapped, StorePair, OffsetAddress, PairOf;
    var a := OffsetAddress(base, imm, s.ctx.regs);
    PairStep(env, s, STP, r1, r2, w, base, imm);
    OffsetForm(base, imm, s.ctx.regs);
    StoreAt(r1, r2, w, MemOffset(base, imm), a, s.ctx.regs, s.ctx.regs, s.mem.segments);
  }

  lemma OffsetForm(base: Reg, imm: Imm, s: Regs)
    ensures MemAddr(MemOffset(base, imm), s) == Address(s, Some(OffsetAddress(base, imm, s)))
  {
  }

  /** When only the first half of the range is mapped, the first register's value is stored and the step is a memory fault. */
  lemma StoreFault(env: Env, s: State, r1: Reg, r2: Reg, w: Width, base: Reg, imm: Imm)
    requires PairOf(r1, r2, w) && Executes(env, s, Inst(STP, Pair(r1, r2, base, imm)))
    requires var a := OffsetAddress(base, imm, s.ctx.regs);
             a + Bytes(w) < TWO64 && Mapped(s.mem.segments, a, Bytes(w)) && !Mapped(s.mem.segments, a + Bytes(w), Bytes(w))
    ensures var a, r := OffsetAddress(base, imm, s.ctx.regs), Step(env, s);
            && r.outcome == Failed(MemoryFault(s.ctx.pc)) && r.state.ctx == s.ctx
            && Lies(r.state.mem.segments, a, GetReg(r1, s.ctx.regs), w)
  {
    hide Fetch, Executes, Step, Lies, GetReg, Mapped, StorePair, OffsetAddress, PairOf;
    PairStep(env, s, STP, r1, r2, w, base, imm);
    OffsetForm(base, imm, s.ctx.regs);
    FaultAt(r1, r2, w, MemOffset(base, imm), OffsetAddress(base, imm, s.ctx.regs), s.ctx.regs, s.ctx.regs, s.mem.segments);
  }

  lemma FaultAt(r1: Reg, r2: Reg, w: Width, o: Operand, a: uint64, regs: Regs, s: Regs, m: seq<Segment>)
    requires PairOf(r1, r2, w) && MemAddr(o, s) == Address(regs, Some(a)) && a + Bytes(w) < TWO64
    requires Mapped(m, a, Bytes(w)) && !Mapped(m, a + Bytes(w), Bytes(w))
    ensures var p := StorePair([RegOp(r1), RegOp(r2), o], s, m);
            !p.ok && p.regs == regs && Lies(p.segments, a, GetReg(r1, regs), w)
  {
    hide MemAddr, WriteSpec, ReadSpec, ByteAt, Le, GetReg, Mapped, MappedPrefix, ChangesOnly;
    var n := Bytes(w);
    var v1, v2 := Le(GetReg(r1, regs), n), Le(GetReg(r2, regs), n);
    WriteChangesOnly(m, a, v1);
    var m1 := WriteSpec(m, a, v1).segments;
    StillUnmapped(m, m1, a, a + n, a + n, n);
    WriteExact(m1, a + n, v2);
    UnmappedStore(m1, a + n, v2, a, n);
  }

  lemma StillUnmapped(m: seq<Segment>, m': seq<Segment>, lo: int, hi: int, a: nat, n: nat)
    requires ChangesOnly(m, m', lo, hi) && !Mapped(m, a, n)
    ensures !Mapped(m', a, n)
  {
    hide ByteAt;
  }

  lemma UnmappedStore(m: seq<Segment>, b: nat, d: seq<byte>, a: nat, n: nat)
    requires a + n <= b
    ensures ReadSpec(WriteSpec(m, b, d).segments, a, n) == ReadSpec(m, a, n)
  {
    hide ByteAt, ReadSpec, WriteSpec;
    WriteExact(m, b, d);
    ReadCongruence(m, WriteSpec(m, b, d).segments, a, n);
  }

  /** LDP there reads both back into any registers of the width, and changes nothing else. */
  lemma LoadStep(env: Env, s: State, r1: Reg, r2: Reg, w: Width, base: Reg, imm: Imm, v1: uint64, v2: uint64)
    requires PairOf(r1, r2, w) && Executes(env, s, Inst(LDP, Pair(r1, r2, base, imm)))
    requires v1 < w.Modulus() && v2 < w.Modulus()
    requires var a := OffsetAddress(base, imm, s.ctx.regs);
             Lies(s.mem.segments, a, v1, w) && Lies(s.mem.segments, a + Bytes(w), v2, w)
    ensures s.ctx.pc + 4 < TWO64
    ensures Step(env, s) == StepResult(At(s, SetReg(r2, v2, SetReg(r1, v1, s.ctx.regs)), s.ctx.pc + 4), Continue)
  {
    hide Fetch, Executes, Step, Lies, GetReg, SetReg, LoadPair, OffsetAddress, PairOf;
    PairStep(env, s, LDP, r1, r2, w, base, imm);
    OffsetForm(base, imm, s.ctx.regs);
    LoadAt(r1, r2, w, MemOffset(base, imm), OffsetAddress(base, imm, s.ctx.regs), s.ctx.regs, v1, v2, s.ctx.regs, s.mem.segments);
  }

  /** LDP from a range that is not wholly mapped is a memory fault and leaves the state as it was. */
  lemma LoadFault(env: Env, s: State, r1: Reg, r2: Reg, w: Width, base: Reg, imm: Imm)
    requires PairOf(r1, r2, w) && Executes(env, s, Inst(LDP, Pair(r1, r2, base, imm)))
    requires var a := OffsetAddress(base, imm, s.ctx.regs);
             a + Bytes(w) < TWO64 && !Mapped(s.mem.segments, a, 2 * Bytes(w))
    ensures Step(env, s) == StepResult(s, Failed(MemoryFault(s.ctx.pc)))
  {
    hide Fetch, Executes, Step, GetReg, OffsetAddress, Mapped, LoadPair, PairOf;
    PairStep(env, s, LDP, r1, r2, w, base, imm);
    OffsetForm(base, imm, s.ctx.regs);
    UnreadAt(r1, r2, w, MemOffset(base, imm), OffsetAddress(base, imm, s.ctx.regs), s.ctx.regs, s.ctx.regs, s.mem.segments);
  }

  lemma UnreadAt(r1: Reg, r2: Reg, w: Width, o: Operand, a: uint64, regs: Regs, s: Regs, m: seq<Segment>)
    requires PairOf(r1, r2, w) && MemAddr(o, s) == Address(regs, Some(a)) && a + Bytes(w) < TWO64
    requires !Mapped(m, a, 2 * Bytes(w))
    ensures LoadPair([RegOp(r1), RegOp(r2), o], s, m) == PairResult(regs, m, false)
  {
    hide MemAddr, ByteAt, GetReg, SetReg, LoadedWord;
    var n := Bytes(w);
    assert !Mapped(m, a, n) || !Mapped(m, a + n, n);
  }

  /**
   What STP stores, LDP at the same signed offset returns: from any base register, at either width, into any two
   different registers, and however much later, provided that the base has its value again and the stored bytes
   have not changed. The store leaves every register and every byte outside its range as it was; the load
   changes only its two destinations.
   */
  lemma StoredPairReturns(env: Env, s: State, t: State, r1: Reg, r2: Reg, d1: Reg, d2: Reg, w: Width, base: Reg, imm: Imm)
    requires PairOf(r1, r2, w) && PairOf(d1, d2, w) && d1 != d2 && CellOf(d1).Some? && CellOf(d2).Some?
    requires Executes(env, s, Inst(STP, Pair(r1, r2, base, imm))) && Executes(env, t, Inst(LDP, Pair(d1, d2, base, imm)))
    requires Mapped(s.mem.segments, OffsetAddress(base, imm, s.ctx.regs), 2 * Bytes(w))
    requires GetReg(base, t.ctx.regs) == GetReg(base, s.ctx.regs)
    requires var a := OffsetAddress(base, imm, s.ctx.regs);
             forall x: nat :: a <= x < a + 2 * Bytes(w) ==>
               ByteAt(t.mem.segments, x) == ByteAt(Step(env, s).state.mem.segments, x)
    ensures var a, n, s1, t1 := OffsetAddress(base, imm, s.ctx.regs), if w == W32 then 4 else 8, Step(env, s), Step(env, t);
            && s1.outcome == Continue && s1.state.ctx.regs == s.ctx.regs
            && ChangesOnly(s.mem.segments, s1.state.mem.segments, a, a + 2 * n)
            && t1.outcome == Continue && t1.state.mem == t.mem
            && GetReg(d1, t1.state.ctx.regs) == GetReg(r1, s.ctx.regs)
            && GetReg(d2, t1.state.ctx.regs) == GetReg(r2, s.ctx.regs)
            && (forall q: Reg :: CellOf(q) != CellOf(d1) && CellOf(q) != CellOf(d2) ==>
                  GetReg(q, t1.state.ctx.regs) == GetReg(q, t.ctx.regs))
  {
    hide Executes, Step, ByteAt, ReadSpec, GetReg, SetReg, Mapped, Le;
    StoreStep(env, s, r1, r2, w, base, imm);
    var a := OffsetAddress(base, imm, s.ctx.regs);
    var m1, m2 := Step(env, s).state.mem.segments, t.mem.segments;
    var v1, v2 := GetReg(r1, s.ctx.regs), GetReg(r2, s.ctx.regs);
    ReadCongruence(m1, m2, a, Bytes(w));
    ReadCongruence(m1, m2, a + Bytes(w), Bytes(w));
    PlainFits(r1, w, s.ctx.regs);
    PlainFits(r2, w, s.ctx.regs);
    LoadStep(env, t, d1, d2, w, base, imm, v1, v2);
    var t1 := SetReg(d1, v1, t.ctx.regs);
    TwoWrites(d1, d2, w, v1, v2, t.ctx.regs);
  }

  lemma PlainFits(r: Reg, w: Width, s: Regs)
    requires Plain(r, w)
    ensures GetReg(r, s) < w.Modulus()
  {
  }

  lemma TwoWrites(d1: Reg, d2: Reg, w: Width, v1: uint64, v2: uint64, s: Regs)
    requires PairOf(d1, d2, w) && d1 != d2 && CellOf(d1).Some? && CellOf(d2).Some? && v1 < w.Modulus() && v2 < w.Modulus()
    ensures var t := SetReg(d2, v2, SetReg(d1, v1, s));
            && GetReg(d1, t) == v1 && GetReg(d2, t) == v2
            && forall q: Reg :: CellOf(q) != CellOf(d1) && CellOf(q) != CellOf(d2) ==> GetReg(q, t) == GetReg(q, s)
  {
    hide GetReg, SetReg;
    var s1 := SetReg(d1, v1, s);
    WriteThenRead(d1, d1, v1, s);
    WriteThenRead(d2, d1, v2, s1);
    WriteThenRead(d2, d2, v2, s1);
    forall q: Reg | CellOf(q) != CellOf(d1) && CellOf(q) != CellOf(d2)
      ensures GetReg(q, SetReg(d2, v2, s1)) == GetReg(q, s)
    {
      WriteThenRead(d1, q, v1, s);
      WriteThenRead(d2, q, v2, s1);
    }
  }
}
