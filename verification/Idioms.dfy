/** Short instruction sequences that every compiled program relies on, and two forms that miss the architecture. */
module Idioms {
  import opened Words
  import opened Machine
  import opened Alu
  import opened Interp
  import opened Meanings

  /** A call reaches its label changing only the link register, and RET under that link value comes back after it. */
  lemma CallReturns(target: Imm, s: Regs, pc: uint64, later: Regs, at: uint64)
    requires pc + 4 < TWO64 && at + 4 < TWO64
    requires GetReg(X(30), later) == GetReg(X(30), Control(Inst(BL, [Label(target)]), s, pc).regs)
    ensures var call := Control(Inst(BL, [Label(target)]), s, pc);
            && call.next == target.ToU64()
            && (forall r: Reg :: r != X(30) && r != W(30) ==> GetReg(r, call.regs) == GetReg(r, s))
            && Control(Inst(RET, []), later, at) == Jump(later, pc + 4)
  {
    hide DataEffect;
  }

  /** BLR through Xn always reaches the address that Xn held. */
  ghost predicate CallsThrough(n: GprIndex) {
    forall s: Regs, pc: uint64 :: pc + 4 < TWO64 ==> Control(Inst(BLR, [RegOp(X(n))]), s, pc).next == GetReg(X(n), s)
  }

  /** RET Xn always reaches the address in Xn. */
  ghost predicate ReturnsThrough(n: GprIndex) {
    forall s: Regs, pc: uint64 :: pc + 4 < TWO64 ==> Control(Inst(RET, [RegOp(X(n))]), s, pc).next == GetReg(X(n), s)
  }

  /** All registers zero but X30. */
  function LinkOnly(v: uint64): Regs {
    RegFile(seq(31, i => if i == 30 then v else 0), 0, 0, 0, seq(32, _ => VecReg(0, 0)), 0)
  }

  /**
   BLR writes the link register before it reads its operand: it calls through every register but X30, which it
   reads as the return address. From pc 0 with X30 at 0, BLR X30 goes to 4.
   */
  lemma CallThroughRegister(n: GprIndex)
    ensures CallsThrough(n) <==> n != 30
    ensures Control(Inst(BLR, [RegOp(X(30))]), LinkOnly(0), 0).next == 4
    ensures forall s: Regs, pc: uint64 :: pc + 4 < TWO64 ==>
              GetReg(X(30), Control(Inst(BLR, [RegOp(X(n))]), s, pc).regs) == pc + 4
  {
    hide DataEffect;
    if n == 30 {
      assert Control(Inst(BLR, [RegOp(X(n))]), LinkOnly(0), 0).next != GetReg(X(n), LinkOnly(0));
    }
  }

  /**
   RET ignores its operand: it returns through X30 alone. With X30 at 4 and every other register at 0, RET Xn
   goes to 4 for every n.
   */
  lemma ReturnThroughRegister(n: GprIndex)
    ensures ReturnsThrough(n) <==> n == 30
    ensures Control(Inst(RET, [RegOp(X(n))]), LinkOnly(4), 0).next == 4
    ensures n != 30 ==> GetReg(X(n), LinkOnly(4)) == 0
  {
    hide DataEffect;
    if n != 30 {
      assert Control(Inst(RET, [RegOp(X(n))]), LinkOnly(4), 0).next != GetReg(X(n), LinkOnly(4));
    }
  }

  /** ADRP of an address's label and ADD of its low twelve bits form the address. */
  lemma PageAddress(n: GprIndex, target: uint64, s: Regs)
    ensures var s1 := After(Inst(ADRP, [RegOp(X(n)), Label(UnsignedImm(target))]), s);
            var s2 := After(Inst(ADD, [RegOp(X(n)), RegOp(X(n)), ImmOp(UnsignedImm(target % 0x1000), None)]), s1);
            GetReg(X(n), s2) == target
  {
    var page := target - target % 0x1000;
    var s1 := After(Inst(ADRP, [RegOp(X(n)), Label(UnsignedImm(target))]), s);
    assert s1 == SetReg(X(n), page, s);
    hide AddFlags, OperandWidth;
  }

  /** What MSR stores in the thread register, MRS reads back into any general register. */
  lemma ThreadPointerRoundTrip(n: GprIndex, k: GprIndex, s: Regs)
    ensures var s1 := After(Inst(MSR, [SysReg(TpidrEl0), RegOp(X(n))]), s);
            var s2 := After(Inst(MRS, [RegOp(X(k)), SysReg(TpidrEl0)]), s1);
            GetReg(X(k), s2) == GetReg(X(n), s)
  {
  }

  /** A bit move to a double-word vector name and back is the identity, and clears the vector's high half. */
  lemma VectorMoveRoundTrip(n: GprIndex, k: GprIndex, vn: VecIndex, s: Regs)
    ensures var s1 := After(Inst(FMOV, [RegOp(Vec(ViewD, vn)), RegOp(X(n))]), s);
            var s2 := After(Inst(FMOV, [RegOp(X(k)), RegOp(Vec(ViewD, vn))]), s1);
            GetReg(X(k), s2) == GetReg(X(n), s) && s2.v[vn] == VecReg(GetReg(X(n), s), 0)
  {
  }
}
