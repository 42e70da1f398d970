/** The processor context, updated in place. */
module Cpu {
  import opened Words
  import opened BitFacts
  import opened Machine

  const FLAG_N: uint32 := 0x8000_0000
  const FLAG_Z: uint32 := 0x4000_0000
  const FLAG_C: uint32 := 0x2000_0000
  const FLAG_V: uint32 := 0x1000_0000

  // ---------- flag masks ----------

  lemma FlagPowers()
    ensures Pow2(28) == FLAG_V && Pow2(29) == FLAG_C && Pow2(30) == FLAG_Z && Pow2(31) == FLAG_N
  {
    Pow2Add(16, 8);
    Pow2Add(24, 3);
    Pow2Widths();
    assert Pow2(28) == 2 * Pow2(27);
    assert Pow2(29) == 2 * Pow2(28);
    assert Pow2(30) == 2 * Pow2(29);
  }

  /** The masks of the flag getters select the flags. */
  lemma MasksSelect(p: uint32)
    ensures GetFlags(p) ==
            Flags(And(p, FLAG_N) != 0, And(p, FLAG_Z) != 0, And(p, FLAG_C) != 0, And(p, FLAG_V) != 0)
  {
    FlagPowers();
    AndBit(p, 31);
    AndBit(p, 30);
    AndBit(p, 29);
    AndBit(p, 28);
  }

  function OrIf(b: bool, flags: nat, mask: nat): nat { if b then Or(flags, mask) else flags }

  function PackedFlags(f: Flags): nat {
    OrIf(f.v, OrIf(f.c, OrIf(f.z, OrIf(f.n, 0, FLAG_N), FLAG_Z), FLAG_C), FLAG_V)
  }

  function One(b: bool): nat { if b then 1 else 0 }

  lemma PackedSum(f: Flags)
    ensures PackedFlags(f) == (8 * One(f.n) + 4 * One(f.z) + 2 * One(f.c) + One(f.v)) * FLAG_V
  {
    hide Or;
    FlagPowers();
    hide Pow2;
    OrNothing(FLAG_N);
    OrNothing(FLAG_Z);
    OrNothing(FLAG_C);
    OrNothing(FLAG_V);
    OrApart(One(f.n), 31, FLAG_N, FLAG_Z);
    OrApart(2 * One(f.n) + One(f.z), 30, FLAG_Z, FLAG_C);
    OrApart(4 * One(f.n) + 2 * One(f.z) + One(f.c), 29, FLAG_C, FLAG_V);
  }

  lemma SetFlagsSum(p: uint32, f: Flags)
    ensures SetFlags(p, f) == p % FLAG_V + (8 * One(f.n) + 4 * One(f.z) + 2 * One(f.c) + One(f.v)) * FLAG_V
  {
    hide GetFlags;
  }

  /** Masking out the old flags and or-ing in the new ones sets exactly the four flags. */
  lemma MasksSet(p: uint32, f: Flags)
    ensures Or(And(p, 0x0fff_ffff), PackedFlags(f)) == SetFlags(p, f)
  {
    hide Or, And, Pow2, PackedFlags, SetFlags;
    FlagPowers();
    AndMask(p, 28);
    PackedSum(f);
    SetFlagsSum(p, f);
    OrApart(8 * One(f.n) + 4 * One(f.z) + 2 * One(f.c) + One(f.v), 28, FLAG_V, p % FLAG_V);
  }

  class CpuContext {
    const x: array<uint64>
    var sp: uint64
    var pc: uint64
    var pstate: uint32
    var pad: uint32
    const v: array<VecReg>
    var tpidr: uint64
    var exited: bool
    var exitCode: int
    var os: TargetOs

    predicate Valid() { x.Length == 31 && v.Length == 32 }

    function Regs(): Regs
      requires Valid()
      reads this, x, v
    {
      RegFile(x[..], sp, pstate, pad, v[..], tpidr)
    }

    /** The whole context as a value. */
    function Value(): Ctx
      requires Valid()
      reads this, x, v
    {
      Ctx(Regs(), pc, exited, exitCode, os)
    }

    constructor ()
      ensures Valid() && fresh(x) && fresh(v)
      ensures Value() == Ctx(RegFile(seq(31, _ => 0), 0, 0, 0, seq(32, _ => VecReg(0, 0)), 0), 0, false, 0, Linux)
    {
      x := new uint64[31](_ => 0);
      v := new VecReg[32](_ => VecReg(0, 0));
      sp, pc, pstate, pad, tpidr := 0, 0, 0, 0, 0;
      exited, exitCode, os := false, 0, Linux;
      new;
      assert x[..] == seq(31, _ => 0) && v[..] == seq(32, _ => VecReg(0, 0));
    }

    method SetX(reg: nat, val: uint64)
      requires Valid()
      modifies x
      ensures Regs() == if reg < 31 then Machine.SetReg(X(reg), val, old(Regs())) else old(Regs())
    {
      if reg < 31 {
        x[reg] := val;
      }
    }

    function GetX(reg: nat): (r: uint64)
      requires Valid()
      reads this, x, v
      ensures r == if reg < 31 then GetReg(X(reg), Regs()) else GetReg(XZR, Regs())
    {
      if reg < 31 then x[reg] else 0
    }

    function GetN(): (b: bool)
      reads this
      ensures b == GetFlags(pstate).n
    {
      MasksSelect(pstate);
      And(pstate, FLAG_N) != 0
    }

    function GetZ(): (b: bool)
      reads this
      ensures b == GetFlags(pstate).z
    {
      MasksSelect(pstate);
      And(pstate, FLAG_Z) != 0
    }

    function GetC(): (b: bool)
      reads this
      ensures b == GetFlags(pstate).c
    {
      MasksSelect(pstate);
      And(pstate, FLAG_C) != 0
    }

    function GetV(): (b: bool)
      reads this
      ensures b == GetFlags(pstate).v
    {
      MasksSelect(pstate);
      And(pstate, FLAG_V) != 0
    }

    /** Replaces the four flags and keeps the other bits of the process state. */
    method SetNzcv(f: Flags)
      requires Valid()
      modifies this`pstate
      ensures pstate == SetFlags(old(pstate), f)
      ensures GetFlags(pstate) == f && pstate % 0x1000_0000 == old(pstate) % 0x1000_0000
    {
      MasksSet(pstate, f);
      var flags: nat := 0;
      if f.n { flags := Or(flags, FLAG_N); }
      if f.z { flags := Or(flags, FLAG_Z); }
      if f.c { flags := Or(flags, FLAG_C); }
      if f.v { flags := Or(flags, FLAG_V); }
      pstate := Or(And(pstate, 0x0fff_ffff), flags);
    }

    method SetV64(reg: nat, val: uint64)
      requires Valid()
      modifies v
      ensures Regs() == if reg < 32 then Machine.SetReg(Vec(ViewD, reg), val, old(Regs())) else old(Regs())
    {
      if reg < 32 {
        v[reg] := VecReg(val, 0);
      }
    }

    /** Writes a register by name: a W write zero-extends, a zero register ignores it. */
    method SetReg(r: Reg, val: uint64)
      requires Valid()
      modifies this, x, v
      ensures Value() == old(Value()).(regs := Machine.SetReg(r, val, old(Regs())))
    {
      match r {
        case X(n) => x[n] := val;
        case W(n) => x[n] := val % TWO32;
        case Vec(view, n) => v[n] := VecReg(val % view.Modulus(), 0);
        case SP => sp := val;
        case _ =>
      }
    }

    /** Takes on a whole context, as generated code or an arm outside the model leaves it. */
    method Assign(c: Ctx)
      requires Valid()
      modifies this, x, v
      ensures Value() == c
    {
      forall i | 0 <= i < 31 { x[i] := c.regs.x[i]; }
      forall i | 0 <= i < 32 { v[i] := c.regs.v[i]; }
      sp, pc, pstate, pad, tpidr := c.regs.sp, c.pc, c.regs.pstate, c.regs.pad, c.regs.tpidr;
      exited, exitCode, os := c.exited, c.exitCode, c.os;
      assert x[..] == c.regs.x && v[..] == c.regs.v;
    }
  }
}
