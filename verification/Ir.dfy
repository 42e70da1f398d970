/** The straight-line intermediate code that the block compiler emits, and its meaning. */
module Ir {
  import opened Words
  import opened Machine
  import opened ContextLayout

  /** Instructions name earlier results by position; a store has a result that nothing uses. */
  datatype Ir =
    | Iconst(c: uint64)
    | Load(off: nat)
    | Store(val: nat, off: nat)
    | Iadd(a: nat, b: nat) | Isub(a: nat, b: nat)
    | Band(a: nat, b: nat) | Bxor(a: nat, b: nat)
    | Ishl(a: nat, b: nat) | Ushr(a: nat, b: nat) | Sshr(a: nat, b: nat)
    | IcmpEq(a: nat, b: nat) | IcmpNe(a: nat, b: nat)
    | Select(cond: nat, a: nat, b: nat)
    | Fbin(op: FpOp, a: nat, b: nat)

  type Fp = (FpOp, uint64, uint64) -> uint64

  datatype IrState = IrState(vals: seq<uint64>, raw: RawContext)

  function Val(st: IrState, i: nat): uint64 { if i < |st.vals| then st.vals[i] else 0 }

  /** Shifts take their amount modulo 64. */
  function Result(fp: Fp, st: IrState, i: Ir): uint64 {
    match i
    case Iconst(c) => c
    case Load(off) => if off + 8 <= SIZE then Load64(st.raw, off) else 0
    case Store(_, _) => 0
    case Iadd(a, b) => Wrap64(Val(st, a) + Val(st, b))
    case Isub(a, b) => Wrap64(Val(st, a) - Val(st, b))
    case Band(a, b) => And64(Val(st, a), Val(st, b))
    case Bxor(a, b) => Xor64(Val(st, a), Val(st, b))
    case Ishl(a, b) => ShiftLeft(Val(st, a), Val(st, b) % 64, W64)
    case Ushr(a, b) => ShiftRight(Val(st, a), Val(st, b) % 64)
    case Sshr(a, b) => ShiftRightArith(Val(st, a), Val(st, b) % 64, W64)
    case IcmpEq(a, b) => if Val(st, a) == Val(st, b) then 1 else 0
    case IcmpNe(a, b) => if Val(st, a) != Val(st, b) then 1 else 0
    case Select(c, a, b) => if Val(st, c) != 0 then Val(st, a) else Val(st, b)
    case Fbin(op, a, b) => fp(op, Val(st, a), Val(st, b))
  }

  function StepIr(fp: Fp, st: IrState, i: Ir): (st': IrState)
    ensures |st'.vals| == |st.vals| + 1
    ensures forall k :: 0 <= k < |st.vals| ==> st'.vals[k] == st.vals[k]
  {
    var raw := if i.Store? && i.off + 8 <= SIZE then Store64(st.raw, i.off, Val(st, i.val)) else st.raw;
    IrState(st.vals + [Result(fp, st, i)], raw)
  }

  function RunIr(fp: Fp, code: seq<Ir>, raw: RawContext): (st: IrState)
    ensures |st.vals| == |code|
  {
    if code == [] then IrState([], raw)
    else StepIr(fp, RunIr(fp, code[..|code| - 1], raw), code[|code| - 1])
  }

  lemma RunSnoc(fp: Fp, code: seq<Ir>, i: Ir, raw: RawContext)
    ensures RunIr(fp, code + [i], raw) == StepIr(fp, RunIr(fp, code, raw), i)
  {
    assert (code + [i])[..|code + [i]| - 1] == code;
  }
}
