/** The interpreter as it runs: methods that update the context and the memory in place. */
module Interpreter {
  import opened Words
  import opened Memory
  import opened Machine
  import opened Alu
  import opened Interp
  import opened Cpu

  /** The calls outside this model leave segments that do not overlap, given such segments. */
  ghost predicate KeepsMemory(env: Env) {
    && (forall c: Ctx, m: Mem :: Disjoint(m.segments) ==> Disjoint(env.sys(c, m).mem.segments))
    && (forall i: Inst, c: Ctx, m: Mem :: Disjoint(m.segments) ==> Disjoint(env.other(i, c, m).mem.segments))
  }

  function StateOf(ctx: CpuContext, mem: MemoryManager): State
    requires ctx.Valid()
    reads ctx, ctx.x, ctx.v, mem
  {
    State(ctx.Value(), mem.State())
  }

  /** The address of a memory operand; a pre- or post-indexed operand writes its base register back. */
  method EvalMemAddr(o: Operand, ctx: CpuContext) returns (addr: Option<uint64>)
    requires ctx.Valid()
    modifies ctx, ctx.x, ctx.v
    ensures Address(ctx.Regs(), addr) == MemAddr(o, old(ctx.Regs()))
    ensures ctx.Value() == old(ctx.Value()).(regs := ctx.Regs())
  {
    hide GetReg, SetReg, EvalShift;
    var s := ctx.Regs();
    match o {
      case RegOp(r) => return Some(GetReg(r, s));
      case QualReg(r) => return Some(GetReg(r, s));
      case MemReg(r) => return Some(GetReg(r, s));
      case MemOffset(r, off) => return Some(Wrap64(GetReg(r, s) + off.ToI64()));
      case MemPreIdx(r, off) =>
        var next := Wrap64(GetReg(r, s) + off.ToI64());
        ctx.SetReg(r, next);
        return Some(next);
      case MemPostIdxImm(r, off) =>
        var base := GetReg(r, s);
        ctx.SetReg(r, Wrap64(base + off.ToI64()));
        return Some(base);
      case MemPostIdxReg(r, idx) =>
        var base := GetReg(r, s);
        ctx.SetReg(r, Wrap64(base + GetReg(idx, s)));
        return Some(base);
      case MemExt(r, idx, sh) =>
        var off := if sh.Some? then EvalShift(GetReg(idx, s), idx.Width(), sh.value) else GetReg(idx, s);
        return Some(Wrap64(GetReg(r, s) + off));
      case Label(imm) => return Some(imm.ToU64());
      case _ => return None;
    }
  }

  /** Writes what a data-processing arm computed. */
  method WriteBack(e: Effect, ctx: CpuContext)
    requires ctx.Valid()
    modifies ctx, ctx.x, ctx.v
    ensures ctx.Value() == old(ctx.Value()).(regs := Apply(e, old(ctx.Regs())))
  {
    hide SetReg, SetFlags;
    if e.write.Some? {
      ctx.SetReg(e.write.value.0, e.write.value.1);
    }
    if e.flags.Some? {
      ctx.SetNzcv(e.flags.value);
    }
    if e.tpidr.Some? {
      ctx.tpidr := e.tpidr.value;
    }
  }

  /** Takes a branch: links first, then evaluates the target. */
  method Branch(i: Inst, ctx: CpuContext) returns (next: uint64)
    requires ctx.Valid() && IsControl(i.op) && ctx.pc + 4 < TWO64
    modifies ctx, ctx.x, ctx.v
    ensures Jump(ctx.Regs(), next) == Control(i, old(ctx.Regs()), old(ctx.pc))
    ensures ctx.Value() == old(ctx.Value()).(regs := ctx.Regs())
  {
    hide OperandVal, EvalCond, GetFlags;
    var ops := i.operands;
    next := ctx.pc + 4;
    if i.op == B || i.op == BR {
      if |ops| >= 1 {
        next := OperandVal(ops[0], ctx.Regs());
      }
    } else if i.op.BCOND? {
      if |ops| >= 1 && EvalCond(i.op.c, GetFlags(ctx.pstate)) {
        next := OperandVal(ops[0], ctx.Regs());
      }
    } else if i.op == CBZ || i.op == CBNZ {
      if |ops| >= 2 {
        var isZero := OperandVal(ops[0], ctx.Regs()) == 0;
        if isZero == (i.op == CBZ) {
          next := OperandVal(ops[1], ctx.Regs());
        }
      }
    } else if i.op == BL || i.op == BLR {
      if |ops| >= 1 {
        ctx.SetX(30, ctx.pc + 4);
        next := OperandVal(ops[0], ctx.Regs());
      }
    } else {
      next := ctx.GetX(30);
    }
  }

  method StorePair(ops: seq<Operand>, ctx: CpuContext, mem: MemoryManager) returns (ok: bool)
    requires ctx.Valid() && mem.Valid()
    modifies ctx, ctx.x, ctx.v, mem
    ensures mem.Valid()
    ensures PairResult(ctx.Regs(), mem.segments, ok) == Interp.StorePair(ops, old(ctx.Regs()), old(mem.segments))
    ensures ctx.Value() == old(ctx.Value()).(regs := ctx.Regs())
    ensures mem.State() == old(mem.State()).(segments := mem.segments)
  {
    hide OperandVal, MemAddr, WriteSpec, Disjoint;
    if |ops| < 3 {
      return true;
    }
    var r1 := if OpReg(ops[0]).Some? then OpReg(ops[0]).value else XZR;
    var addr := EvalMemAddr(ops[2], ctx);
    if addr.None? {
      return true;
    }
    var n := PairSize(r1);
    ok := mem.Write(addr.value, Le(OperandVal(ops[0], ctx.Regs()), n));
    if ok {
      ok := mem.Write(Wrap64(addr.value + n), Le(OperandVal(ops[1], ctx.Regs()), n));
    }
  }

  method LoadPair(ops: seq<Operand>, ctx: CpuContext, mem: MemoryManager) returns (ok: bool)
    requires ctx.Valid() && mem.Valid()
    modifies ctx, ctx.x, ctx.v
    ensures PairResult(ctx.Regs(), mem.segments, ok) == Interp.LoadPair(ops, old(ctx.Regs()), mem.segments)
    ensures ctx.Value() == old(ctx.Value()).(regs := ctx.Regs())
  {
    hide OperandVal, MemAddr, ReadSpec, Disjoint, SetReg, LoadedWord;
    if |ops| < 3 || OpReg(ops[0]).None? || OpReg(ops[1]).None? {
      return true;
    }
    var r1, r2 := OpReg(ops[0]).value, OpReg(ops[1]).value;
    var addr := EvalMemAddr(ops[2], ctx);
    if addr.None? {
      return true;
    }
    var n := PairSize(r1);
    var b1 := mem.Read(addr.value, n);
    if b1.None? {
      return false;
    }
    var b2 := mem.Read(Wrap64(addr.value + n), n);
    if b2.None? {
      return false;
    }
    ctx.SetReg(r1, LoadedWord(b1.value));
    ctx.SetReg(r2, LoadedWord(b2.value));
    return true;
  }

  /** Runs an arm outside the model. */
  method CallOther(env: Env, i: Inst, ctx: CpuContext, mem: MemoryManager) returns (outcome: Outcome)
    requires ctx.Valid() && mem.Valid() && KeepsMemory(env)
    modifies ctx, ctx.x, ctx.v, mem
    ensures mem.Valid() && StepResult(StateOf(ctx, mem), outcome) == OtherArm(env, i, old(StateOf(ctx, mem)))
  {
    hide Disjoint;
    var r := env.other(i, ctx.Value(), mem.State());
    ctx.Assign(r.ctx);
    mem.Install(r.mem);
    return if r.error.Some? then Failed(r.error.value) else Continue;
  }

  method CallSystem(env: Env, ctx: CpuContext, mem: MemoryManager) returns (outcome: Outcome)
    requires ctx.Valid() && mem.Valid() && KeepsMemory(env) && ctx.pc + 4 < TWO64
    modifies ctx, ctx.x, ctx.v, mem
    ensures mem.Valid() && StepResult(StateOf(ctx, mem), outcome) == Syscall(env, old(StateOf(ctx, mem)))
  {
    hide Disjoint;
    var next := ctx.pc + 4;
    var r := env.sys(ctx.Value(), mem.State());
    ctx.Assign(r.ctx);
    mem.Install(r.mem);
    if r.error.Some? {
      return Failed(r.error.value);
    }
    if ctx.exited {
      return Exited;
    }
    ctx.pc := next;
    return Continue;
  }

  /** One decoded instruction: its arm, then the next pc. */
  method Dispatch(env: Env, i: Inst, ctx: CpuContext, mem: MemoryManager) returns (outcome: Outcome)
    requires ctx.Valid() && mem.Valid() && KeepsMemory(env) && ctx.pc + 4 < TWO64
    modifies ctx, ctx.x, ctx.v, mem
    ensures mem.Valid() && StepResult(StateOf(ctx, mem), outcome) == Exec(env, i, old(StateOf(ctx, mem)))
  {
    hide Disjoint, KeepsMemory, DataEffect, Apply, Control, Interp.StorePair, Interp.LoadPair, Syscall, OtherArm,
         DivideOverflows, VectorForm, VectorPair;
    var pc := ctx.pc;
    var next := pc + 4;
    if VectorForm(i) || VectorPair(i) {
      outcome := CallOther(env, i, ctx, mem);
      return;
    } else if i.op == SDIV && DivideOverflows(i.operands, ctx.Regs()) {
      return Failed(DivideOverflow(pc));
    } else if IsData(i.op) {
      WriteBack(DataEffect(i, ctx.Regs()), ctx);
    } else if IsControl(i.op) {
      next := Branch(i, ctx);
    } else if i.op == STP {
      var ok := StorePair(i.operands, ctx, mem);
      if !ok {
        return Failed(MemoryFault(pc));
      }
    } else if i.op == LDP {
      var ok := LoadPair(i.operands, ctx, mem);
      if !ok {
        return Failed(MemoryFault(pc));
      }
    } else if i.op == SVC {
      outcome := CallSystem(env, ctx, mem);
      return;
    } else {
      outcome := CallOther(env, i, ctx, mem);
      return;
    }
    ctx.pc := next;
    return Continue;
  }

  /** One interpreter step. */
  method Step(env: Env, ctx: CpuContext, mem: MemoryManager) returns (outcome: Outcome)
    requires ctx.Valid() && mem.Valid() && KeepsMemory(env)
    modifies ctx, ctx.x, ctx.v, mem
    ensures mem.Valid() && StepResult(StateOf(ctx, mem), outcome) == Interp.Step(env, old(StateOf(ctx, mem)))
  {
    hide Disjoint, KeepsMemory, Exec, IsZeroLine, IsHint, WriteSpec, ReadSpec, FromLe32;
    if ctx.exited {
      return Exited;
    }
    var pc := ctx.pc;
    var bytes := mem.Read(pc, 4);
    if bytes.None? {
      return Failed(MemoryFault(pc));
    }
    var word := FromLe32(bytes.value);
    if IsZeroLine(word) {
      var a := ctx.GetX(word % 32);
      var ok := mem.Write(a - a % 64, Zeros(64));
      ctx.pc := pc + 4;
      return Continue;
    }
    var i := env.decode(word, pc);
    if i.Some? {
      outcome := Dispatch(env, i.value, ctx, mem);
    } else if IsHint(word) {
      ctx.pc := pc + 4;
      return Continue;
    } else {
      return Failed(DecodeFault(pc));
    }
  }

  // ---------- runs ----------

  datatype RunOutcome = Limit | Stopped(error: Option<Error>)

  function Report(r: RunResult): RunOutcome {
    if r.Running? then Limit else Stopped(r.error)
  }

  /** At most `max` steps. */
  method RunMaxSteps(env: Env, ctx: CpuContext, mem: MemoryManager, max: nat) returns (r: RunOutcome)
    requires ctx.Valid() && mem.Valid() && KeepsMemory(env)
    modifies ctx, ctx.x, ctx.v, mem
    ensures mem.Valid()
    ensures var run := Interp.Run(env, old(StateOf(ctx, mem)), max);
            StateOf(ctx, mem) == run.state && r == Report(run)
  {
    hide Interp.Step, Disjoint, KeepsMemory;
    var steps := 0;
    while steps < max
      invariant 0 <= steps <= max
      invariant mem.Valid()
      invariant Interp.Run(env, StateOf(ctx, mem), max - steps) == Interp.Run(env, old(StateOf(ctx, mem)), max)
    {
      var outcome := Step(env, ctx, mem);
      if outcome.Failed? {
        return Stopped(Some(outcome.error));
      }
      if outcome.Exited? {
        return Stopped(None);
      }
      steps := steps + 1;
    }
    return Limit;
  }

  /** Steps until the program ends, for a program that does end, after `n` steps or fewer. */
  method RunToEnd(env: Env, ctx: CpuContext, mem: MemoryManager, ghost n: nat) returns (error: Option<Error>)
    requires ctx.Valid() && mem.Valid() && KeepsMemory(env)
    requires Interp.Run(env, StateOf(ctx, mem), n).Ended?
    modifies ctx, ctx.x, ctx.v, mem
    ensures mem.Valid()
    ensures Ended(StateOf(ctx, mem), error) == Interp.Run(env, old(StateOf(ctx, mem)), n)
  {
    hide Interp.Step, Disjoint, KeepsMemory;
    ghost var left := n;
    while true
      invariant mem.Valid()
      invariant Interp.Run(env, StateOf(ctx, mem), left) == Interp.Run(env, old(StateOf(ctx, mem)), n)
      decreases left
    {
      var outcome := Step(env, ctx, mem);
      if outcome.Failed? {
        return Some(outcome.error);
      }
      if outcome.Exited? {
        return None;
      }
      left := left - 1;
    }
  }
}
