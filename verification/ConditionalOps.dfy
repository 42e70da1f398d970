/** Chains of conditional compares, and the conditional-select aliases. */
module ConditionalOps {
  import opened Words
  import opened Machine
  import opened Alu
  import opened Interp
  import opened Comparison

  type Pair = (Operand, Operand)

  predicate Equal(p: Pair, s: Regs) {
    var m := OperandWidth(p.0).Modulus();
    OperandVal(p.0, s) % m == OperandVal(p.1, s) % m
  }

  predicate AllEqual(pairs: seq<Pair>, s: Regs) { forall i :: 0 <= i < |pairs| ==> Equal(pairs[i], s) }

  predicate SomeEqual(pairs: seq<Pair>, s: Regs) { exists i :: 0 <= i < |pairs| && Equal(pairs[i], s) }

  /** Straight-line data instructions, one after the other. */
  function RunData(prog: seq<Inst>, s: Regs): Regs
    requires forall i :: 0 <= i < |prog| ==> IsData(prog[i].op)
    decreases |prog|
  {
    if prog == [] then s else RunData(prog[1..], Apply(DataEffect(prog[0], s), s))
  }

  function Compare(p: Pair): Inst { Inst(CMP, [p.0, p.1]) }

  /** A conditional compare of the pair: under `c`, or else the flag immediate. */
  function CondCompare(p: Pair, nzcv: uint64, c: Cond): Inst {
    Inst(CCMP, [p.0, p.1, ImmOp(UnsignedImm(nzcv), None), CondOp(c)])
  }

  function CondCompares(pairs: seq<Pair>, nzcv: uint64, c: Cond): (prog: seq<Inst>)
    ensures |prog| == |pairs| && forall i :: 0 <= i < |prog| ==> IsData(prog[i].op)
  {
    seq(|pairs|, i requires 0 <= i < |pairs| => CondCompare(pairs[i], nzcv, c))
  }

  function Zero(s: Regs): bool { GetFlags(s.pstate).z }

  lemma OperandIgnoresFlags(o: Operand, s: Regs, p: uint32)
    ensures OperandVal(o, s.(pstate := p)) == OperandVal(o, s)
  {
    hide EvalShift, EvalImmShift;
  }

  lemma EqualIgnoresFlags(p: Pair, s: Regs, f: uint32)
    ensures Equal(p, s.(pstate := f)) == Equal(p, s)
  {
    hide OperandVal;
    OperandIgnoresFlags(p.0, s, f);
    OperandIgnoresFlags(p.1, s, f);
  }

  lemma CompareSetsZero(p: Pair, s: Regs)
    ensures var s1 := Apply(DataEffect(Compare(p), s), s);
            s1 == s.(pstate := s1.pstate) && (Zero(s1) <==> Equal(p, s))
  {
    hide OperandVal, SubFlags, OperandWidth;
    SubFlagsCompare(EQ, OperandVal(p.0, s), OperandVal(p.1, s), OperandWidth(p.0));
    FlagsOf(SubEffect(CMP, [p.0, p.1], s), s);
  }

  /** One link: under EQ with immediate 0 it conjoins the pair's equality, under NE with immediate 4 it disjoins it. */
  lemma LinkSetsZero(p: Pair, all: bool, s: Regs)
    ensures var i := if all then CondCompare(p, 0, EQ) else CondCompare(p, 4, NE);
            var s1 := Apply(DataEffect(i, s), s);
            && s1 == s.(pstate := s1.pstate)
            && (Zero(s1) <==> if all then Zero(s) && Equal(p, s) else Zero(s) || Equal(p, s))
  {
    hide OperandVal, SubFlags, OperandWidth, Compares, SetFlags, DataEffect;
    var nzcv := if all then 0 else 4;
    var i := if all then CondCompare(p, 0, EQ) else CondCompare(p, 4, NE);
    ImmediateValue(nzcv, s);
    SubFlagsCompare(EQ, OperandVal(p.0, s), OperandVal(p.1, s), OperandWidth(p.0));
    assert DataEffect(i, s) == CondCompareEffect(CCMP, i.operands, s) by { LinkDispatch(i, s); }
    FlagsOf(CondCompareEffect(CCMP, i.operands, s), s);
    assert Compares(EQ, OperandVal(p.0, s) % OperandWidth(p.0).Modulus(), OperandVal(p.1, s) % OperandWidth(p.0).Modulus(),
                    OperandWidth(p.0)) == Equal(p, s) by { EqualCompares(p, s); }
  }

  lemma LinkDispatch(i: Inst, s: Regs)
    requires i.op == CCMP
    ensures DataEffect(i, s) == CondCompareEffect(CCMP, i.operands, s)
  {
  }

  lemma EqualCompares(p: Pair, s: Regs)
    ensures var w := OperandWidth(p.0);
            Compares(EQ, OperandVal(p.0, s) % w.Modulus(), OperandVal(p.1, s) % w.Modulus(), w) == Equal(p, s)
  {
    hide OperandVal, OperandWidth;
  }

  lemma ImmediateValue(v: uint64, s: Regs)
    ensures OperandVal(ImmOp(UnsignedImm(v), None), s) == v
  {
  }

  lemma ConsEqual(first: Pair, rest: seq<Pair>, s: Regs, f: uint32)
    ensures AllEqual([first] + rest, s) <==> Equal(first, s) && AllEqual(rest, s.(pstate := f))
    ensures SomeEqual([first] + rest, s) <==> Equal(first, s) || SomeEqual(rest, s.(pstate := f))
  {
    hide Equal;
    var pairs, s1 := [first] + rest, s.(pstate := f);
    forall i | 0 <= i < |rest|
      ensures Equal(rest[i], s1) == Equal(pairs[i + 1], s)
    {
      EqualIgnoresFlags(rest[i], s, f);
    }
    assert pairs[0] == first;
    assert forall i :: 1 <= i < |pairs| ==> Equal(pairs[i], s) == Equal(rest[i - 1], s1);
  }

  lemma {:induction false} LinksSetZero(pairs: seq<Pair>, all: bool, s: Regs)
    ensures var prog := if all then CondCompares(pairs, 0, EQ) else CondCompares(pairs, 4, NE);
            var s1 := RunData(prog, s);
            && s1 == s.(pstate := s1.pstate)
            && (Zero(s1) <==> if all then Zero(s) && AllEqual(pairs, s) else Zero(s) || SomeEqual(pairs, s))
    decreases |pairs|
  {
    hide Equal, DataEffect, Apply, Zero;
    if pairs != [] {
      var nzcv, c := if all then 0 else 4, if all then EQ else NE;
      var prog := CondCompares(pairs, nzcv, c);
      LinkSetsZero(pairs[0], all, s);
      var s1 := Apply(DataEffect(prog[0], s), s);
      assert prog[1..] == CondCompares(pairs[1..], nzcv, c);
      LinksSetZero(pairs[1..], all, s1);
      assert pairs == [pairs[0]] + pairs[1..];
      ConsEqual(pairs[0], pairs[1..], s, s1.pstate);
    }
  }

  /**
   A compare followed by any number of conditional compares: with immediate 0 under EQ, the final EQ holds
   exactly when every pair is equal; with immediate 4 under NE, exactly when some pair is. Widths may differ
   from pair to pair, and no register changes.
   */
  lemma CompareChain(first: Pair, rest: seq<Pair>, s: Regs)
    ensures var allEq := RunData([Compare(first)] + CondCompares(rest, 0, EQ), s);
            && (EvalCond(EQ, GetFlags(allEq.pstate)) <==> AllEqual([first] + rest, s))
            && allEq == s.(pstate := allEq.pstate)
    ensures var someEq := RunData([Compare(first)] + CondCompares(rest, 4, NE), s);
            && (EvalCond(EQ, GetFlags(someEq.pstate)) <==> SomeEqual([first] + rest, s))
            && someEq == s.(pstate := someEq.pstate)
  {
    hide Equal, DataEffect, Apply, RunData;
    CompareSetsZero(first, s);
    var s1 := Apply(DataEffect(Compare(first), s), s);
    RunCons(Compare(first), CondCompares(rest, 0, EQ), s);
    RunCons(Compare(first), CondCompares(rest, 4, NE), s);
    LinksSetZero(rest, true, s1);
    LinksSetZero(rest, false, s1);
    ConsEqual(first, rest, s, s1.pstate);
  }

  lemma RunCons(i: Inst, prog: seq<Inst>, s: Regs)
    requires IsData(i.op) && forall k :: 0 <= k < |prog| ==> IsData(prog[k].op)
    ensures RunData([i] + prog, s) == RunData(prog, Apply(DataEffect(i, s), s))
  {
    hide DataEffect, Apply;
    assert ([i] + prog)[1..] == prog;
  }

  // ---------- inverted conditions ----------

  function Invert(c: Cond): Cond {
    match c
    case EQ => NE case NE => EQ
    case CS => CC case CC => CS
    case MI => PL case PL => MI
    case VS => VC case VC => VS
    case HI => LS case LS => HI
    case GE => LT case LT => GE
    case GT => LE case LE => GT
    case AL => AL
  }

  lemma InvertNegates(c: Cond, f: Flags)
    requires c != AL
    ensures EvalCond(Invert(c), f) == !EvalCond(c, f)
    ensures Invert(Invert(c)) == c
  {
  }

  /** The long form of a conditional increment, inversion or negation. */
  function LongForm(op: Op): Op { if op == CINC then CSINC else if op == CINV then CSINV else CSNEG }

  /** CINC, CINV and CNEG are CSINC, CSINV and CSNEG with both sources the same, under the inverted condition. */
  lemma IncrementAliases(op: Op, rd: Operand, rn: Operand, c: Cond, s: Regs)
    requires c != AL && op in {CINC, CINV, CNEG}
    ensures DataEffect(Inst(op, [rd, rn, CondOp(c)]), s) ==
            DataEffect(Inst(LongForm(op), [rd, rn, rn, CondOp(Invert(c))]), s)
  {
    hide OperandVal, EvalCond, Invert, GetFlags, DataEffect, Wrap64, Not64;
    InvertNegates(c, GetFlags(s.pstate));
    IncrementDispatch(op, [rd, rn, CondOp(c)], [rd, rn, rn, CondOp(Invert(c))], s);
    assert CondIncEffect(op, [rd, rn, CondOp(c)], s) == SelectEffect(LongForm(op), [rd, rn, rn, CondOp(Invert(c))], s);
  }

  lemma IncrementDispatch(op: Op, short: seq<Operand>, long: seq<Operand>, s: Regs)
    requires op in {CINC, CINV, CNEG}
    ensures DataEffect(Inst(op, short), s) == CondIncEffect(op, short, s)
    ensures DataEffect(Inst(LongForm(op), long), s) == SelectEffect(LongForm(op), long, s)
  {
    hide CondIncEffect, SelectEffect;
  }

  /** CSET and CSETM are CSINC and CSINV of the zero register of either width, under the inverted condition. */
  lemma SetAliases(rd: Operand, zr: Reg, c: Cond, s: Regs)
    requires c != AL && (zr.XZR? || zr.WZR?)
    ensures var inv := CondOp(Invert(c));
            && DataEffect(Inst(CSET, [rd, CondOp(c)]), s) == DataEffect(Inst(CSINC, [rd, RegOp(zr), RegOp(zr), inv]), s)
            && DataEffect(Inst(CSETM, [rd, CondOp(c)]), s) == DataEffect(Inst(CSINV, [rd, RegOp(zr), RegOp(zr), inv]), s)
  {
    hide OperandVal, EvalCond, Invert, GetFlags, DataEffect;
    InvertNegates(c, GetFlags(s.pstate));
    ZeroOperands(s);
    SetForm(CSET, CSINC, rd, zr, c, s);
    SetForm(CSETM, CSINV, rd, zr, c, s);
  }

  lemma SetForm(short: Op, op: Op, rd: Operand, zr: Reg, c: Cond, s: Regs)
    requires (short == CSET && op == CSINC) || (short == CSETM && op == CSINV)
    requires OperandVal(RegOp(zr), s) == 0
    ensures DataEffect(Inst(short, [rd, CondOp(c)]), s) ==
            WriteTo(OpReg(rd), if !EvalCond(c, GetFlags(s.pstate)) then 0 else if short == CSETM then TWO64 - 1 else 1)
    ensures DataEffect(Inst(op, [rd, RegOp(zr), RegOp(zr), CondOp(Invert(c))]), s) ==
            WriteTo(OpReg(rd), if EvalCond(Invert(c), GetFlags(s.pstate)) then 0 else if short == CSETM then TWO64 - 1 else 1)
  {
    hide OperandVal, EvalCond, Invert, GetFlags, DataEffect, Wrap64, Not64;
    SetDispatch(short, op, [rd, CondOp(c)], [rd, RegOp(zr), RegOp(zr), CondOp(Invert(c))], s);
    assert Wrap64(0 + 1) == 1 && Not64(0) == TWO64 - 1 by { OneAndAll(); }
  }

  lemma OneAndAll()
    ensures Wrap64(0 + 1) == 1 && Not64(0) == TWO64 - 1
  {
  }

  lemma SetDispatch(short: Op, op: Op, few: seq<Operand>, many: seq<Operand>, s: Regs)
    requires (short == CSET && op == CSINC) || (short == CSETM && op == CSINV)
    ensures DataEffect(Inst(short, few), s) == CondSetEffect(short, few, s)
    ensures DataEffect(Inst(op, many), s) == SelectEffect(op, many, s)
  {
    hide CondSetEffect, SelectEffect;
  }

  lemma ZeroOperands(s: Regs)
    ensures OperandVal(RegOp(XZR), s) == 0 && OperandVal(RegOp(WZR), s) == 0
  {
  }
}
