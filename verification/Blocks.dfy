/** Building a block from guest memory, and the proof that a block runs whole interpreter steps. */
module Blocks {
  import opened Words
  import opened Memory
  import opened Machine
  import opened Alu
  import opened Interp
  import opened ContextLayout
  import opened Ir
  import opened Translator
  import opened GeneratedCode
  import opened Fragment

  const MAX_INSTRUCTIONS: nat := 100

  datatype Block = Block(startPc: uint64, endPc: uint64, code: seq<Ir>, ret: nat)

  /** Why nothing was compiled: the first instruction of any effect is outside the compiler's list, or there is none. */
  datatype CompileResult = Compiled(block: Block) | Unhandled(pc: uint64) | NothingCompiled(pc: uint64)

  /** The variables of the translation loop; `rejected` marks its early return. */
  datatype Builder = Builder(
    code: seq<Ir>, pc: uint64, count: nat, ended: bool, any: bool, ret: nat, rejected: bool)

  function StartBuilder(pc: uint64): Builder { Builder([], pc, 0, false, false, 0, false) }

  /** One turn of the loop on the instruction `i` at the builder's pc. */
  function AddInstruction(b: Builder, i: Inst): Builder
    requires b.pc + 4 < TWO64
  {
    var t := Translate(b.code, i, b.pc);
    var b' := b.(code := t.code, pc := b.pc + 4, count := b.count + 1);
    match t.kind
    case Inert => b'
    case Emitted => b'.(any := true)
    case EndsBlock(ret) => b'.(any := true, ended := true, ret := ret)
    case Boundary =>
      if !b.any then b.(rejected := true, ended := true)
      else
        var here := Push(t.code, Iconst(b.pc));
        b'.(code := here.code, ended := true, ret := here.val)
  }

  /** The instruction at `pc`, if it can be fetched and decoded. */
  function InstAt(env: Env, m: Mem, pc: uint64): (i: Option<Inst>)
    ensures i.Some? ==> pc + 4 < TWO64
  {
    var w := Fetch(m, pc);
    if w.Some? then env.decode(w.value, pc) else None
  }

  /** The rest of the loop from any point. */
  function Build(env: Env, m: Mem, b: Builder): Builder
    decreases MAX_INSTRUCTIONS - b.count, !b.ended
  {
    if b.count >= MAX_INSTRUCTIONS || b.ended then b
    else
      var i := InstAt(env, m, b.pc);
      if i.None? then b else Build(env, m, AddInstruction(b, i.value))
  }

  function FinishBlock(start: uint64, b: Builder): CompileResult {
    if b.rejected then Unhandled(b.pc)
    else if !b.any then NothingCompiled(start)
    else if b.ended then Compiled(Block(start, b.pc, b.code, b.ret))
    else
      var here := Push(b.code, Iconst(b.pc));
      Compiled(Block(start, b.pc, here.code, here.val))
  }

  function Compile(env: Env, m: Mem, start: uint64): CompileResult {
    FinishBlock(start, Build(env, m, StartBuilder(start)))
  }

  datatype BlockRun = BlockRun(ctx: Ctx, next: uint64)

  /** Calls the generated code: it sees the raw context and returns the next pc. */
  function RunBlock(env: Env, b: Block, ctx: Ctx): BlockRun {
    var st := RunIr(env.fp, b.code, Layout(Image(ctx.regs, ctx.pc)));
    var im := Parse(st.raw);
    BlockRun(ctx.(regs := im.regs, pc := im.pc), Val(st, b.ret))
  }

  // ---------- one interpreter step on the fragment ----------

  /** What the interpreter makes of the instruction at `pc`. */
  function InterpJump(i: Inst, s: Regs, pc: uint64): Jump
    requires pc + 4 < TWO64
  {
    if IsData(i.op) then Jump(Apply(DataEffect(i, s), s), pc + 4) else Control(i, s, pc)
  }

  lemma StepInFragment(env: Env, s: State, i: Inst)
    requires !s.ctx.exited && InstAt(env, s.mem, s.ctx.pc) == Some(i) && InFragment(i)
    requires !IsZeroLine(Fetch(s.mem, s.ctx.pc).value)
    ensures IsData(i.op) || IsControl(i.op)
    ensures var j := InterpJump(i, s.ctx.regs, s.ctx.pc);
            Step(env, s) == StepResult(s.(ctx := s.ctx.(regs := j.regs, pc := j.next)), Continue)
  {
    hide DataEffect, Control, Fetch, DataInFragment, Apply;
    assert !VectorForm(i) && !VectorPair(i) && i.op != SDIV;
  }

  lemma FlagsKept(i: Inst, s: Regs, pc: uint64)
    requires pc + 4 < TWO64 && InFragment(i)
    ensures InterpJump(i, s, pc).regs.pstate == s.pstate
  {
    hide InFragment, DataEffect, Control;
    if IsData(i.op) {
      NoFlags(i, s);
    } else {
      ControlKeepsFlags(i, s, pc);
    }
  }

  lemma NoFlags(i: Inst, s: Regs)
    requires InFragment(i) && IsData(i.op)
    ensures DataEffect(i, s).flags == None
  {
    hide DataInFragment, VectorForm, OperandVal;
    if i.op != MSR {
      WritesTarget(i, s);
    }
  }

  lemma ControlKeepsFlags(i: Inst, s: Regs, pc: uint64)
    requires pc + 4 < TWO64
    ensures Control(i, s, pc).regs.pstate == s.pstate
  {
    hide OperandVal, EvalCond, GetFlags;
  }

  // ---------- agreement along the block ----------

  /** The instruction at `pc` is outside the compiler's list, or in the agreeing fragment. */
  predicate CleanAt(env: Env, m: Mem, pc: uint64) {
    var i := InstAt(env, m, pc);
    i.Some? && Handles(i.value.op) ==> InFragment(i.value) && !IsZeroLine(Fetch(m, pc).value)
  }

  predicate Clean(env: Env, m: Mem, lo: uint64, hi: uint64) {
    forall pc: uint64 :: lo <= pc < hi && (pc - lo) % 4 == 0 ==> CleanAt(env, m, pc)
  }

  /** The two memories hold the same instruction words from `lo` up to `hi`. */
  predicate SameCode(m: Mem, m': Mem, lo: uint64, hi: uint64) {
    forall pc: uint64 :: lo <= pc < hi && (pc - lo) % 4 == 0 ==> Fetch(m', pc) == Fetch(m, pc)
  }

  predicate SameBytes(m: Mem, m': Mem, lo: uint64, hi: uint64) {
    forall a: nat :: lo <= a < hi ==> ByteAt(m'.segments, a) == ByteAt(m.segments, a)
  }

  lemma SameBytesSameCode(m: Mem, m': Mem, lo: uint64, hi: uint64)
    requires SameBytes(m, m', lo, hi) && lo <= hi && (hi - lo) % 4 == 0
    ensures SameCode(m, m', lo, hi)
  {
    forall pc: uint64 | lo <= pc < hi && (pc - lo) % 4 == 0
      ensures Fetch(m', pc) == Fetch(m, pc)
    {
      ReadCongruence(m.segments, m'.segments, pc, 4);
    }
  }

  lemma {:induction false} BuildAdvances(env: Env, m: Mem, b: Builder)
    ensures var f := Build(env, m, b);
            && f.pc >= b.pc && f.count >= b.count && f.pc - b.pc == 4 * (f.count - b.count)
            && (b.any ==> f.any) && (b.count <= MAX_INSTRUCTIONS ==> f.count <= MAX_INSTRUCTIONS)
    decreases MAX_INSTRUCTIONS - b.count, !b.ended
  {
    hide Translate;
    if b.count < MAX_INSTRUCTIONS && !b.ended {
      var i := InstAt(env, m, b.pc);
      if i.Some? {
        BuildAdvances(env, m, AddInstruction(b, i.value));
      }
    }
  }

  /** The builder has code for exactly the steps that lead from `s0` to `s`. */
  predicate Tracks(env: Env, b: Builder, s0: State, s: State) {
    && Run(env, s0, b.count) == Running(s)
    && s == s0.(ctx := s0.ctx.(regs := s.ctx.regs, pc := b.pc))
    && s.ctx.regs.pstate == s0.ctx.regs.pstate
    && Holds(env.fp, b.code, Layout(Image(s0.ctx.regs, s0.ctx.pc)), Image(s.ctx.regs, s0.ctx.pc))
  }

  /** The end of a block: `k` steps were run and the returned value is the pc they reach. */
  predicate Summarises(env: Env, code: seq<Ir>, ret: nat, s0: State, k: nat, s: State) {
    && 1 <= k <= MAX_INSTRUCTIONS
    && Run(env, s0, k) == Running(s)
    && s == s0.(ctx := s0.ctx.(regs := s.ctx.regs, pc := s.ctx.pc))
    && s.ctx.regs.pstate == s0.ctx.regs.pstate
    && Holds(env.fp, code, Layout(Image(s0.ctx.regs, s0.ctx.pc)), Image(s.ctx.regs, s0.ctx.pc))
    && ValueOf(env.fp, code, Layout(Image(s0.ctx.regs, s0.ctx.pc)), ret) == s.ctx.pc
  }

  lemma RunOne(env: Env, s0: State, k: nat, s: State)
    requires Run(env, s0, k) == Running(s) && Step(env, s).outcome.Continue?
    ensures Run(env, s0, k + 1) == Running(Step(env, s).state)
  {
    hide Step;
    RunSplit(env, s0, k, 1);
    assert Run(env, s, 1) == Run(env, Step(env, s).state, 0);
  }

  /** Translating one fragment instruction and taking one interpreter step stay in track. */
  lemma TrackData(env: Env, b: Builder, i: Inst, s0: State, s: State)
    requires Tracks(env, b, s0, s) && !s0.ctx.exited && IsData(i.op) && InFragment(i)
    requires InstAt(env, s.mem, b.pc) == Some(i) && !IsZeroLine(Fetch(s.mem, b.pc).value)
    ensures var b' := AddInstruction(b, i);
            b' == b.(code := b'.code, pc := b.pc + 4, count := b.count + 1, any := b.any || EmitsCode(i))
            && Step(env, s).outcome.Continue? && Tracks(env, b', s0, Step(env, s).state)
  {
    hide Step, Translate, DataEffect, Apply, InFragment, Layout, RunIr, IsZeroLine, Fetch, EmitsCode;
    var raw, im := Layout(Image(s0.ctx.regs, s0.ctx.pc)), Image(s.ctx.regs, s0.ctx.pc);
    StepInFragment(env, s, i);
    FlagsKept(i, s.ctx.regs, b.pc);
    InstructionSim(env.fp, b.code, i, b.pc, raw, im);
    RunOne(env, s0, b.count, s);
  }

  lemma TrackBranch(env: Env, b: Builder, i: Inst, s0: State, s: State)
    requires Tracks(env, b, s0, s) && !s0.ctx.exited && !IsData(i.op) && InFragment(i) && b.count < MAX_INSTRUCTIONS
    requires InstAt(env, s.mem, b.pc) == Some(i) && !IsZeroLine(Fetch(s.mem, b.pc).value)
    ensures var b' := AddInstruction(b, i);
            && b' == b.(code := b'.code, pc := b.pc + 4, count := b.count + 1, any := true, ended := true, ret := b'.ret)
            && Step(env, s).outcome.Continue?
            && Summarises(env, b'.code, b'.ret, s0, b.count + 1, Step(env, s).state)
  {
    hide Step, Translate, DataEffect, Control, Apply, InFragment, Layout, RunIr, IsZeroLine, Fetch;
    var raw, im := Layout(Image(s0.ctx.regs, s0.ctx.pc)), Image(s.ctx.regs, s0.ctx.pc);
    StepInFragment(env, s, i);
    FlagsKept(i, s.ctx.regs, b.pc);
    InstructionSim(env.fp, b.code, i, b.pc, raw, im);
    RunOne(env, s0, b.count, s);
  }

  /** Returning the builder's pc summarises the steps tracked so far. */
  lemma ReturnHere(env: Env, b: Builder, s0: State, s: State)
    requires Tracks(env, b, s0, s) && 1 <= b.count <= MAX_INSTRUCTIONS
    ensures var here := Push(b.code, Iconst(b.pc));
            Summarises(env, here.code, here.val, s0, b.count, s)
  {
    hide Layout, RunIr, Run, Step;
    PushSim(env.fp, b.code, Iconst(b.pc), Layout(Image(s0.ctx.regs, s0.ctx.pc)), Image(s.ctx.regs, s0.ctx.pc));
  }

  lemma HandlesKinds(code: seq<Ir>, i: Inst, pc: uint64)
    requires pc + 4 < TWO64
    ensures !Handles(i.op) <==> Translate(code, i, pc).kind.Boundary?
    ensures !Handles(i.op) ==> Translate(code, i, pc).code == code
  {
    hide TranslateBinary, TranslateMove, TranslateZeroBranch, TranslateFloat, TranslateFloatMove;
    TranslateKinds(code, i.op, i.operands, pc + 4);
  }

  lemma TranslateKinds(code: seq<Ir>, op: Op, ops: seq<Operand>, next: uint64)
    ensures !TranslateBinary(code, op, ops).kind.Boundary? && !TranslateMove(code, ops).kind.Boundary?
    ensures !TranslateZeroBranch(code, op, ops, next).kind.Boundary? && !TranslateFloatMove(code, ops).kind.Boundary?
    ensures op.FP? ==> !TranslateFloat(code, op.f, ops).kind.Boundary?
  {
  }

  /**
   The translation loop, run over compile-time memory `cm`, against interpreter steps over a memory `m`
   that holds the same bytes where the loop reads instructions.
   */
  lemma {:induction false} BuildSim(env: Env, cm: Mem, b: Builder, s0: State, s: State) returns (k: nat, s': State)
    requires Tracks(env, b, s0, s) && !s0.ctx.exited && !b.ended && !b.rejected && b.count <= MAX_INSTRUCTIONS
    requires b.any ==> b.count > 0
    requires var f := Build(env, cm, b);
             f.any && SameCode(cm, s0.mem, b.pc, f.pc) && Clean(env, cm, b.pc, f.pc)
    ensures var r := FinishBlock(s0.ctx.pc, Build(env, cm, b));
            r.Compiled? && Summarises(env, r.block.code, r.block.ret, s0, k, s')
    decreases MAX_INSTRUCTIONS - b.count
  {
    hide Step, Translate, InFragment, Layout, RunIr, IsZeroLine, Fetch, Tracks, Summarises, Run, Handles;
    var i := InstAt(env, cm, b.pc);
    if b.count == MAX_INSTRUCTIONS || i.None? {
      ReturnHere(env, b, s0, s);
      return b.count, s;
    }
    var b' := AddInstruction(b, i.value);
    var f := Build(env, cm, b);
    assert f == Build(env, cm, b');
    HandlesKinds(b.code, i.value, b.pc);
    if !Handles(i.value.op) {
      ReturnHere(env, b, s0, s);
      return b.count, s;
    }
    BuildAdvances(env, cm, b');
    TrackKind(b, i.value);
    assert CleanAt(env, cm, b.pc);
    TrackState(env, b, s0, s);
    assert Fetch(s.mem, b.pc) == Fetch(cm, b.pc);
    assert InstAt(env, s.mem, b.pc) == i;
    if IsData(i.value.op) {
      TrackData(env, b, i.value, s0, s);
      CleanRest(env, cm, s0.mem, b.pc, f.pc);
      k, s' := BuildSim(env, cm, b', s0, Step(env, s).state);
    } else {
      TrackBranch(env, b, i.value, s0, s);
      k, s' := b.count + 1, Step(env, s).state;
    }
  }

  lemma TrackState(env: Env, b: Builder, s0: State, s: State)
    requires Tracks(env, b, s0, s)
    ensures s.mem == s0.mem && s.ctx.pc == b.pc && s.ctx.exited == s0.ctx.exited
    ensures Run(env, s0, b.count) == Running(s)
  {
    hide Run, Holds;
  }

  lemma TrackKind(b: Builder, i: Inst)
    requires b.pc + 4 < TWO64 && Handles(i.op)
    ensures AddInstruction(b, i).pc == b.pc + 4 && AddInstruction(b, i).count == b.count + 1
  {
    hide Translate;
    HandlesKinds(b.code, i, b.pc);
  }

  lemma CleanRest(env: Env, m: Mem, m': Mem, lo: uint64, hi: uint64)
    requires Clean(env, m, lo, hi) && SameCode(m, m', lo, hi) && lo + 4 < TWO64
    ensures Clean(env, m, lo + 4, hi) && SameCode(m, m', lo + 4, hi)
  {
    hide CleanAt, Fetch;
    forall pc: uint64 | lo + 4 <= pc < hi && (pc - (lo + 4)) % 4 == 0
      ensures CleanAt(env, m, pc) && Fetch(m', pc) == Fetch(m, pc)
    {
      assert (pc - lo) % 4 == 0;
    }
  }

  /**
   Block translation preserves meaning. Take a block compiled at `s0`'s pc from some memory `cm`, in
   which every instruction the compiler handles is in the agreeing fragment, and run it where those
   bytes are the same. Running it gives exactly the registers reached by `k` interpreter steps,
   1 <= k <= 100, and returns the pc they reach. Memory, flags and everything outside the registers
   are untouched, and the block spans between one and a hundred instructions.
   */
  lemma BlockPreservesMeaning(env: Env, cm: Mem, block: Block, s0: State) returns (k: nat, s: State)
    requires !s0.ctx.exited
    requires Compile(env, cm, s0.ctx.pc) == Compiled(block)
    requires SameCode(cm, s0.mem, block.startPc, block.endPc) && Clean(env, cm, block.startPc, block.endPc)
    ensures 1 <= k <= MAX_INSTRUCTIONS && Run(env, s0, k) == Running(s)
    ensures s == s0.(ctx := s0.ctx.(regs := s.ctx.regs, pc := s.ctx.pc)) && s.ctx.regs.pstate == s0.ctx.regs.pstate
    ensures RunBlock(env, block, s0.ctx) == BlockRun(s.ctx.(pc := s0.ctx.pc), s.ctx.pc)
    ensures block.startPc == s0.ctx.pc && block.startPc < block.endPc <= block.startPc + 400
    ensures (block.endPc - block.startPc) % 4 == 0
  {
    hide Step, Translate, Layout, RunIr, Run, Parse, InstAt, Fetch, CleanAt;
    var b := StartBuilder(s0.ctx.pc);
    BuildAdvances(env, cm, b);
    RunNothing(env.fp, Image(s0.ctx.regs, s0.ctx.pc));
    RunZero(env, s0);
    k, s := BuildSim(env, cm, b, s0, s0);
    ParseLayout(Image(s.ctx.regs, s0.ctx.pc));
    AnyCounts(env, cm, b);
  }

  lemma RunZero(env: Env, s: State)
    ensures Run(env, s, 0) == Running(s)
  {
    hide Step;
  }

  lemma RunNothing(fp: Fp, im: Image)
    ensures RunIr(fp, [], Layout(im)).raw == Layout(im)
  {
    hide Layout;
  }

  lemma {:induction false} AnyCounts(env: Env, m: Mem, b: Builder)
    requires b.any ==> b.count > 0
    ensures Build(env, m, b).any ==> Build(env, m, b).count > 0
    decreases MAX_INSTRUCTIONS - b.count, !b.ended
  {
    hide Translate;
    if b.count < MAX_INSTRUCTIONS && !b.ended {
      var i := InstAt(env, m, b.pc);
      if i.Some? {
        AnyCounts(env, m, AddInstruction(b, i.value));
      }
    }
  }

  // ---------- how far a block reaches ----------

  /** The compiler takes the instruction to leave the block. */
  predicate Closes(i: Inst) {
    i.op in {B, BL, RET} || (i.op in {CBZ, CBNZ} && |i.operands| >= 2 && RegAt(i.operands, 0).Some?)
  }

  /** The compiler makes something of a straight-line instruction; it passes over other operand forms. */
  predicate Effective(i: Inst) {
    if i.op.FP? then RegAt(i.operands, 0).Some? && RegAt(i.operands, 1).Some? && RegAt(i.operands, 2).Some?
    else IsData(i.op) && Handles(i.op) && EmitsCode(i)
  }

  lemma KindOf(code: seq<Ir>, i: Inst, pc: uint64)
    requires pc + 4 < TWO64
    ensures var k := Translate(code, i, pc).kind;
            && (k.Boundary? <==> !Handles(i.op))
            && (k.EndsBlock? <==> Closes(i))
            && (k.Emitted? <==> Handles(i.op) && !Closes(i) && Effective(i))
  {
    hide LoadReg, StoreReg, LoadVec, StoreVec, LoadSource, LabelOr, IsZero, Offset;
  }

  /** Instructions from `start` that the compiler handles and that do not leave the block. */
  predicate RunsThrough(env: Env, m: Mem, start: uint64, n: nat) {
    forall k: nat :: k < n ==> GoesOn(env, m, start + 4 * k)
  }

  predicate GoesOn(env: Env, m: Mem, pc: nat) {
    pc < TWO64 && var i := InstAt(env, m, pc); i.Some? && Handles(i.value.op) && !Closes(i.value)
  }

  predicate EffectiveAt(env: Env, m: Mem, pc: nat) {
    pc < TWO64 && var i := InstAt(env, m, pc); i.Some? && Effective(i.value)
  }

  lemma OneMore(env: Env, m: Mem, start: uint64, n: nat)
    ensures (exists k: nat :: k < n + 1 && EffectiveAt(env, m, start + 4 * k)) <==>
            (exists k: nat :: k < n && EffectiveAt(env, m, start + 4 * k)) || EffectiveAt(env, m, start + 4 * n)
  {
    hide EffectiveAt;
    if k: nat :| k < n && EffectiveAt(env, m, start + 4 * k) {
      assert k < n + 1;
    }
  }

  lemma {:induction false} BuildExtent(env: Env, m: Mem, start: uint64, b: Builder) returns (n: nat)
    requires !b.ended && !b.rejected && b.count <= 100 && b.pc == start + 4 * b.count
    requires RunsThrough(env, m, start, b.count)
    requires b.any <==> exists k: nat :: k < b.count && EffectiveAt(env, m, start + 4 * k)
    ensures b.count <= n <= 100 && start + 4 * n < TWO64 && RunsThrough(env, m, start, n)
    ensures var f, i := Build(env, m, b), InstAt(env, m, start + 4 * n);
            && (n < 100 ==> !GoesOn(env, m, start + 4 * n))
            && (f.any <==> (n < 100 && i.Some? && Closes(i.value)) || exists k: nat :: k < n && EffectiveAt(env, m, start + 4 * k))
            && (f.rejected <==> n < 100 && i.Some? && !Handles(i.value.op) && !f.any)
            && f.pc == start + 4 * n + (if n < 100 && i.Some? && !f.rejected then 4 else 0)
    decreases 100 - b.count
  {
    hide Translate, Handles, Closes, Effective, Fetch;
    var i := InstAt(env, m, b.pc);
    n := b.count;
    if n < 100 && i.Some? {
      KindOf(b.code, i.value, b.pc);
      var b' := AddInstruction(b, i.value);
      if Handles(i.value.op) && !Closes(i.value) {
        assert GoesOn(env, m, start + 4 * n);
        OneMore(env, m, start, n);
        n := BuildExtent(env, m, start, b');
      } else {
        assert Build(env, m, b) == b';
      }
    }
  }

  /**
   What a compilation covers: the `n` instructions before the first that leaves the block, is outside the
   compiler's list or cannot be read, and never more than a hundred. A block comes of it exactly when one of
   them, or the instruction that leaves the block, has operands the compiler accepts; it spans them and the
   instruction that stopped it. Otherwise the report names the instruction outside the list, or the start.
   */
  lemma CompileExtent(env: Env, m: Mem, start: uint64) returns (n: nat)
    ensures n <= 100 && start + 4 * n < TWO64 && RunsThrough(env, m, start, n)
    ensures n < 100 ==> !GoesOn(env, m, start + 4 * n)
    ensures var r, last := Compile(env, m, start), if n < 100 then InstAt(env, m, start + 4 * n) else None;
            && (r.Compiled? <==> (last.Some? && Closes(last.value)) || exists k: nat :: k < n && EffectiveAt(env, m, start + 4 * k))
            && (r.Compiled? ==> r.block.startPc == start && r.block.endPc == start + 4 * n + if last.Some? then 4 else 0)
            && (!r.Compiled? ==> r == if last.Some? && !Handles(last.value.op) then Unhandled(start + 4 * n) else NothingCompiled(start))
  {
    hide Build, Handles, Closes, Effective, Fetch;
    n := BuildExtent(env, m, start, StartBuilder(start));
  }
}
