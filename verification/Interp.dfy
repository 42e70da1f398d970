/** The reference interpreter: one step, and runs of steps. */
module Interp {
  import opened Words
  import opened Memory
  import opened Machine
  import opened Alu

  datatype Error =
    | MemoryFault(pc: uint64) | DecodeFault(pc: uint64) | Unimplemented(pc: uint64)
    | DivideOverflow(pc: uint64) | SyscallFault(code: int)

  datatype Outcome = Continue | Exited | Failed(error: Error)

  datatype State = State(ctx: Ctx, mem: Mem)

  datatype StepResult = StepResult(state: State, outcome: Outcome)

  /** What an arm outside this model leaves: the context, the memory and perhaps an error. */
  datatype ArmResult = ArmResult(ctx: Ctx, mem: Mem, error: Option<Error>)

  /**
   What the emulator does not define itself: the instruction decoder, the system calls, the opcodes
   outside the integer core, and host floating point. All are fixed functions, shared by both engines.
   */
  datatype Env = Env(
    decode: (uint32, uint64) -> Option<Inst>,
    sys: (Ctx, Mem) -> ArmResult,
    other: (Inst, Ctx, Mem) -> ArmResult,
    fp: (FpOp, uint64, uint64) -> uint64)

  // ---------- memory operands ----------

  datatype Address = Address(regs: Regs, addr: Option<uint64>)

  /** The address of a memory operand, and the registers after its write-back. */
  function MemAddr(o: Operand, s: Regs): Address {
    match o
    case RegOp(r) => Address(s, Some(GetReg(r, s)))
    case QualReg(r) => Address(s, Some(GetReg(r, s)))
    case MemReg(r) => Address(s, Some(GetReg(r, s)))
    case MemOffset(r, off) => Address(s, Some(Wrap64(GetReg(r, s) + off.ToI64())))
    case MemPreIdx(r, off) =>
      var a := Wrap64(GetReg(r, s) + off.ToI64());
      Address(SetReg(r, a, s), Some(a))
    case MemPostIdxImm(r, off) =>
      var base := GetReg(r, s);
      Address(SetReg(r, Wrap64(base + off.ToI64()), s), Some(base))
    case MemPostIdxReg(r, idx) =>
      var base := GetReg(r, s);
      Address(SetReg(r, Wrap64(base + GetReg(idx, s)), s), Some(base))
    case MemExt(r, idx, sh) =>
      var off := if sh.Some? then EvalShift(GetReg(idx, s), idx.Width(), sh.value) else GetReg(idx, s);
      Address(s, Some(Wrap64(GetReg(r, s) + off)))
    case Label(imm) => Address(s, Some(imm.ToU64()))
    case _ => Address(s, None)
  }

  // ---------- control flow ----------

  datatype Jump = Jump(regs: Regs, next: uint64)

  /** Where control goes after the instruction at `pc`, and the link register it leaves. */
  function Control(i: Inst, s: Regs, pc: uint64): Jump
    requires pc + 4 < TWO64
  {
    var ops := i.operands;
    match i.op
    case B => Jump(s, if |ops| >= 1 then OperandVal(ops[0], s) else pc + 4)
    case BR => Jump(s, if |ops| >= 1 then OperandVal(ops[0], s) else pc + 4)
    case BCOND(c) =>
      Jump(s, if |ops| >= 1 && EvalCond(c, GetFlags(s.pstate)) then OperandVal(ops[0], s) else pc + 4)
    case CBZ => Jump(s, if |ops| >= 2 && OperandVal(ops[0], s) == 0 then OperandVal(ops[1], s) else pc + 4)
    case CBNZ => Jump(s, if |ops| >= 2 && OperandVal(ops[0], s) != 0 then OperandVal(ops[1], s) else pc + 4)
    case BL => Link(ops, s, pc)
    case BLR => Link(ops, s, pc)
    case RET => Jump(s, GetReg(X(30), s))
    case _ => Jump(s, pc + 4)
  }

  /** The link register is written before the target operand is evaluated. */
  function Link(ops: seq<Operand>, s: Regs, pc: uint64): Jump
    requires pc + 4 < TWO64
  {
    if |ops| == 0 then Jump(s, pc + 4)
    else
      var linked := SetReg(X(30), pc + 4, s);
      Jump(linked, OperandVal(ops[0], linked))
  }

  predicate IsControl(op: Op) { op in {B, BR, CBZ, CBNZ, BL, BLR, RET} || op.BCOND? }

  // ---------- pair loads and stores ----------

  datatype PairResult = PairResult(regs: Regs, segments: seq<Segment>, ok: bool)

  /** Width in bytes of a pair transfer of general registers. */
  function PairSize(r1: Reg): nat { if r1.IsW() then 4 else 8 }

  /** A transfer of two vector registers, which is outside the integer core. */
  predicate VectorPair(i: Inst) {
    i.op in {STP, LDP} && |i.operands| >= 3 && NamesVec(i.operands[0]) && NamesVec(i.operands[1])
  }

  /** Two stores; the values are read after the address write-back, and the first may land without the second. */
  function StorePair(ops: seq<Operand>, s: Regs, segs: seq<Segment>): PairResult {
    if |ops| < 3 then PairResult(s, segs, true)
    else
      var r1 := if OpReg(ops[0]).Some? then OpReg(ops[0]).value else XZR;
      var a := MemAddr(ops[2], s);
      if a.addr.None? then PairResult(a.regs, segs, true)
      else
        var n := PairSize(r1);
        var w1 := WriteSpec(segs, a.addr.value, Le(OperandVal(ops[0], a.regs), n));
        if !w1.ok then PairResult(a.regs, w1.segments, false)
        else
          var w2 := WriteSpec(w1.segments, Wrap64(a.addr.value + n), Le(OperandVal(ops[1], a.regs), n));
          PairResult(a.regs, w2.segments, w2.ok)
  }

  function LoadPair(ops: seq<Operand>, s: Regs, segs: seq<Segment>): PairResult {
    if |ops| < 3 || OpReg(ops[0]).None? || OpReg(ops[1]).None? then PairResult(s, segs, true)
    else
      var r1, r2 := OpReg(ops[0]).value, OpReg(ops[1]).value;
      var a := MemAddr(ops[2], s);
      if a.addr.None? then PairResult(a.regs, segs, true)
      else
        var n := PairSize(r1);
        var b1, b2 := ReadSpec(segs, a.addr.value, n), ReadSpec(segs, Wrap64(a.addr.value + n), n);
        if b1.None? || b2.None? then PairResult(a.regs, segs, false)
        else
          PairResult(SetReg(r2, LoadedWord(b2.value), SetReg(r1, LoadedWord(b1.value), a.regs)), segs, true)
  }

  function LoadedWord(b: seq<byte>): uint64
    requires |b| == 4 || |b| == 8
  {
    if |b| == 4 then FromLe32(b) else FromLe64(b)
  }

  // ---------- one step ----------

  /** The cache-zeroing instruction, recognised from its bits before decoding. */
  predicate IsZeroLine(word: uint32) { And(word, 0xffff_fe00) == 0xd50b_7400 }

  /** Undecodable words of the system space are skipped. */
  predicate IsHint(word: uint32) {
    And(word, 0xffff_f01f) == 0xd503_201f || And(word, 0xfff0_0000) == 0xd500_0000
  }

  function Advance(s: State, regs: Regs, next: uint64): StepResult {
    StepResult(s.(ctx := s.ctx.(regs := regs, pc := next)), Continue)
  }

  function Fail(s: State, e: Error): StepResult { StepResult(s, Failed(e)) }

  /** Zeroes the 64-byte line of the register's address, as far as it is mapped. */
  function ZeroLine(s: State, word: uint32): State {
    var rt := word % 32;
    var a := if rt < 31 then s.ctx.regs.x[rt] else 0;
    s.(mem := s.mem.(segments := WriteSpec(s.mem.segments, a - a % 64, Zeros(64)).segments))
  }

  function AfterPair(s: State, r: PairResult): StepResult
    requires s.ctx.pc + 4 < TWO64
  {
    var s' := s.(mem := s.mem.(segments := r.segments));
    if r.ok then Advance(s', r.regs, s.ctx.pc + 4)
    else Fail(s'.(ctx := s.ctx.(regs := r.regs)), MemoryFault(s.ctx.pc))
  }

  function Syscall(env: Env, s: State): StepResult
    requires s.ctx.pc + 4 < TWO64
  {
    var r := env.sys(s.ctx, s.mem);
    var s' := State(r.ctx, r.mem);
    if r.error.Some? then Fail(s', r.error.value)
    else if r.ctx.exited then StepResult(s', Exited)
    else StepResult(s'.(ctx := r.ctx.(pc := s.ctx.pc + 4)), Continue)
  }

  /** An opcode outside the integer core: it sets its own next pc, and may fail but not exit. */
  function OtherArm(env: Env, i: Inst, s: State): StepResult {
    var r := env.other(i, s.ctx, s.mem);
    StepResult(State(r.ctx, r.mem), if r.error.Some? then Failed(r.error.value) else Continue)
  }

  function Exec(env: Env, i: Inst, s: State): StepResult
    requires s.ctx.pc + 4 < TWO64
  {
    var regs, pc := s.ctx.regs, s.ctx.pc;
    if VectorForm(i) || VectorPair(i) then OtherArm(env, i, s)
    else if i.op == SDIV && DivideOverflows(i.operands, regs) then Fail(s, DivideOverflow(pc))
    else if IsData(i.op) then Advance(s, Apply(DataEffect(i, regs), regs), pc + 4)
    else if IsControl(i.op) then
      var j := Control(i, regs, pc);
      Advance(s, j.regs, j.next)
    else if i.op == STP then AfterPair(s, StorePair(i.operands, regs, s.mem.segments))
    else if i.op == LDP then AfterPair(s, LoadPair(i.operands, regs, s.mem.segments))
    else if i.op == SVC then Syscall(env, s)
    else OtherArm(env, i, s)
  }

  /** The instruction word at `pc`, if its four bytes are mapped. */
  function Fetch(m: Mem, pc: nat): (w: Option<uint32>)
    ensures w.Some? ==> pc + 4 < TWO64
  {
    var b := ReadSpec(m.segments, pc, 4);
    if b.Some? then Some(FromLe32(b.value)) else None
  }

  function Step(env: Env, s: State): StepResult {
    var pc := s.ctx.pc;
    if s.ctx.exited then StepResult(s, Exited)
    else
      var w := Fetch(s.mem, pc);
      if w.None? then Fail(s, MemoryFault(pc))
      else if IsZeroLine(w.value) then Advance(ZeroLine(s, w.value), s.ctx.regs, pc + 4)
      else
        var i := env.decode(w.value, pc);
        if i.Some? then Exec(env, i.value, s)
        else if IsHint(w.value) then Advance(s, s.ctx.regs, pc + 4)
        else Fail(s, DecodeFault(pc))
  }

  // ---------- runs ----------

  datatype RunResult = Running(state: State) | Ended(state: State, error: Option<Error>)

  function Finish(r: StepResult): RunResult
    requires !r.outcome.Continue?
  {
    Ended(r.state, if r.outcome.Failed? then Some(r.outcome.error) else None)
  }

  /** At most `n` steps: the bounded run, which the unbounded one equals once it ends. */
  function Run(env: Env, s: State, n: nat): RunResult
    decreases n
  {
    if n == 0 then Running(s)
    else
      var r := Step(env, s);
      if r.outcome.Continue? then Run(env, r.state, n - 1) else Finish(r)
  }

  /** Running `j` steps and then `k` more is running `j + k`. */
  lemma {:induction false} RunSplit(env: Env, s: State, j: nat, k: nat)
    ensures Run(env, s, j + k) ==
            var r := Run(env, s, j);
            if r.Running? then Run(env, r.state, k) else r
    decreases j
  {
    hide Step;
    if j > 0 {
      var r := Step(env, s);
      if r.outcome.Continue? {
        RunSplit(env, r.state, j - 1, k);
      }
    }
  }

  /** Once a run has ended, more fuel changes nothing. */
  lemma EndedStays(env: Env, s: State, n: nat, m: nat)
    requires n <= m && Run(env, s, n).Ended?
    ensures Run(env, s, m) == Run(env, s, n)
  {
    hide Step;
    RunSplit(env, s, n, m - n);
  }
}
