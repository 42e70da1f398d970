/** Running a program from cached blocks, and the proof that this refines the plain interpreter run. */
module Engine {
  import opened Words
  import opened Memory
  import opened Machine
  import opened Alu
  import opened Interp
  import opened Ir
  import opened GeneratedCode
  import opened Fragment
  import opened Translator
  import opened Blocks

  type Cache = map<uint64, Block>

  datatype Lookup = Lookup(cache: Cache, result: CompileResult)

  /** A cached block if there is one; otherwise compile, and cache what compiled. */
  function CompileAndGet(env: Env, cache: Cache, m: Mem, pc: uint64): Lookup {
    if pc in cache then Lookup(cache, Compiled(cache[pc]))
    else
      var r := Compile(env, m, pc);
      Lookup(if r.Compiled? then cache[pc := r.block] else cache, r)
  }

  datatype ExecResult = ExecResult(cache: Cache, state: State, outcome: Outcome)

  function Execute(env: Env, cache: Cache, s: State): ExecResult {
    var pc := s.ctx.pc;
    var l := CompileAndGet(env, cache, s.mem, pc);
    if l.result.Compiled? then
      var run := RunBlock(env, l.result.block, s.ctx);
      if run.next != pc then
        ExecResult(l.cache, s.(ctx := run.ctx.(pc := run.next)), if run.ctx.exited then Exited else Continue)
      else
        var r := Step(env, s.(ctx := run.ctx));
        ExecResult(l.cache, r.state, r.outcome)
    else
      var r := Step(env, s);
      ExecResult(l.cache, r.state, r.outcome)
  }

  /** Up to `max` executes; the outcome says whether the program has exited. */
  function Chain(env: Env, cache: Cache, s: State, max: nat): ExecResult
    decreases max
  {
    if max == 0 || s.ctx.exited then ExecResult(cache, s, if s.ctx.exited then Exited else Continue)
    else
      var r := Execute(env, cache, s);
      match r.outcome
      case Failed(_) => r
      case Exited => r.(outcome := if r.state.ctx.exited then Exited else Continue)
      case Continue => Chain(env, r.cache, r.state, max - 1)
  }

  const CHAIN_LENGTH: nat := 1000

  datatype JitResult = JitResult(cache: Cache, run: RunResult)

  /** The outer loop, at most `rounds` times around. */
  function RunJit(env: Env, cache: Cache, s: State, rounds: nat): JitResult
    decreases rounds
  {
    if s.ctx.exited then JitResult(cache, Ended(s, None))
    else if rounds == 0 then JitResult(cache, Running(s))
    else
      var r := Chain(env, cache, s, CHAIN_LENGTH);
      match r.outcome
      case Failed(e) => JitResult(r.cache, Ended(r.state, Some(e)))
      case Exited => JitResult(r.cache, Ended(r.state, None))
      case Continue => RunJit(env, r.cache, r.state, rounds - 1)
  }

  // ---------- programs that find at an address what they found there before ----------

  /** Instruction words by address. */
  type Text = map<uint64, uint32>

  function WordIn(text: Text, pc: uint64): Option<uint32> { if pc in text then Some(text[pc]) else None }

  /** Every word that decodes to an opcode of the compiler's list is in the agreeing fragment. */
  predicate CleanText(env: Env, text: Text) {
    forall pc :: pc in text ==> CleanWord(env, text[pc], pc)
  }

  predicate CleanWord(env: Env, w: uint32, pc: uint64) {
    var i := env.decode(w, pc);
    i.Some? && Handles(i.value.op) ==> InFragment(i.value) && !IsZeroLine(w)
  }

  /** The run is about to execute at its pc. */
  predicate Poised(r: RunResult) { r.Running? && !r.state.ctx.exited }

  predicate StableState(text: Text, r: RunResult) {
    Poised(r) ==> Fetch(r.state.mem, r.state.ctx.pc) == WordIn(text, r.state.ctx.pc)
  }

  /**
   Whenever the plain interpreter run from `s` executes at an address, it finds there the word that `text`
   gives that address. Nothing is asked of words at other times: code may be mapped or written after the
   start, and overwritten where it does not run again. This is a condition on the program alone; it says
   nothing about blocks or the cache.
   */
  ghost predicate Stable(env: Env, text: Text, s: State) {
    forall n: nat :: StableState(text, Run(env, s, n))
  }

  /** The cached block was compiled from words of `text`. */
  predicate EntryFrom(env: Env, text: Text, pc: uint64, block: Block, cm: Mem) {
    && Compile(env, cm, pc) == Compiled(block)
    && block.startPc == pc && Covered(text, cm, pc, block.endPc)
  }

  predicate Covered(text: Text, m: Mem, lo: uint64, hi: uint64) {
    forall pc: uint64 :: lo <= pc < hi && (pc - lo) % 4 == 0 ==> pc in text && Fetch(m, pc) == Some(text[pc])
  }

  ghost predicate CacheFrom(env: Env, text: Text, cache: Cache) {
    forall pc :: pc in cache ==> exists cm :: EntryFrom(env, text, pc, cache[pc], cm)
  }

  lemma StableLater(env: Env, text: Text, s: State, k: nat, t: State)
    requires Stable(env, text, s) && Run(env, s, k) == Running(t)
    ensures Stable(env, text, t)
  {
    hide Step, StableState;
    forall n: nat
      ensures StableState(text, Run(env, t, n))
    {
      RunSplit(env, s, k, n);
      assert StableState(text, Run(env, s, k + n));
    }
  }

  lemma CoveredClean(env: Env, text: Text, cm: Mem, m: Mem, lo: uint64, hi: uint64)
    requires CleanText(env, text) && Covered(text, cm, lo, hi) && Covered(text, m, lo, hi)
    ensures Clean(env, cm, lo, hi) && SameCode(cm, m, lo, hi)
  {
    hide Fetch, InFragment, IsZeroLine;
    forall pc: uint64 | lo <= pc < hi && (pc - lo) % 4 == 0
      ensures CleanAt(env, cm, pc) && Fetch(m, pc) == Fetch(cm, pc)
    {
      assert CleanWord(env, text[pc], pc);
    }
  }

  lemma CoveredRest(text: Text, m: Mem, lo: uint64, hi: uint64)
    requires Covered(text, m, lo, hi) && lo + 4 < TWO64
    ensures Covered(text, m, lo + 4, hi)
  {
    hide Fetch;
    forall pc: uint64 | lo + 4 <= pc < hi && (pc - (lo + 4)) % 4 == 0
      ensures pc in text && Fetch(m, pc) == Some(text[pc])
    {
      assert (pc - lo) % 4 == 0;
    }
  }

  lemma CoveredCons(text: Text, m: Mem, lo: uint64, hi: uint64)
    requires lo in text && Fetch(m, lo) == Some(text[lo]) && lo + 4 < TWO64 && Covered(text, m, lo + 4, hi)
    ensures Covered(text, m, lo, hi)
  {
    hide Fetch;
    forall pc: uint64 | lo <= pc < hi && (pc - lo) % 4 == 0
      ensures pc in text && Fetch(m, pc) == Some(text[pc])
    {
      assert pc == lo || (lo + 4 <= pc && (pc - (lo + 4)) % 4 == 0);
    }
  }

  /**
   The translation loop reads only words that the plain run is about to execute, and finds what the run finds:
   whether it reads the present memory, or read an earlier one that held words of the text.
   */
  lemma {:induction false} BuildCovered(env: Env, text: Text, cm: Mem, b: Builder, s0: State, s: State)
    requires b.ended || Tracks(env, b, s0, s)
    requires !s0.ctx.exited && Stable(env, text, s0) && CleanText(env, text)
    requires cm == s0.mem || Covered(text, cm, b.pc, Build(env, cm, b).pc)
    ensures Covered(text, cm, b.pc, Build(env, cm, b).pc) && Covered(text, s0.mem, b.pc, Build(env, cm, b).pc)
    decreases MAX_INSTRUCTIONS - b.count, !b.ended
  {
    hide Step, Translate, InFragment, IsZeroLine, Fetch, Tracks, Summarises, Run, Handles, Covered, Stable;
    var i := InstAt(env, cm, b.pc);
    var f := Build(env, cm, b);
    if b.count >= MAX_INSTRUCTIONS || b.ended || i.None? {
      CoveredNothing(text, cm, b.pc);
      CoveredNothing(text, s0.mem, b.pc);
    } else {
      var b' := AddInstruction(b, i.value);
      assert f == Build(env, cm, b');
      TrackState(env, b, s0, s);
      StableNow(env, text, s0, b.count, s);
      HandlesKinds(b.code, i.value, b.pc);
      BuildAdvances(env, cm, b');
      if f.pc == b.pc {
        CoveredNothing(text, cm, b.pc);
        CoveredNothing(text, s0.mem, b.pc);
      } else {
        FirstWord(text, cm, s0.mem, b.pc, f.pc);
        assert CleanWord(env, text[b.pc], b.pc);
        if cm != s0.mem {
          CoveredRest(text, cm, b.pc, f.pc);
        }
        if !Handles(i.value.op) {
          assert f == b';
          CoveredNothing(text, cm, f.pc);
          CoveredNothing(text, s0.mem, f.pc);
        } else if IsData(i.value.op) {
          TrackData(env, b, i.value, s0, s);
          BuildCovered(env, text, cm, b', s0, Step(env, s).state);
        } else {
          TrackBranch(env, b, i.value, s0, s);
          assert f == b';
          CoveredNothing(text, cm, f.pc);
          CoveredNothing(text, s0.mem, f.pc);
        }
        CoveredCons(text, cm, b.pc, f.pc);
        CoveredCons(text, s0.mem, b.pc, f.pc);
      }
    }
  }

  /** Where the run is now, it reads the word of the text. */
  lemma StableNow(env: Env, text: Text, s0: State, k: nat, s: State)
    requires Stable(env, text, s0) && Run(env, s0, k) == Running(s) && !s.ctx.exited
    ensures Fetch(s.mem, s.ctx.pc) == WordIn(text, s.ctx.pc)
  {
    hide Step, Fetch, Run;
    assert StableState(text, Run(env, s0, k));
  }

  lemma FirstWord(text: Text, cm: Mem, m: Mem, lo: uint64, hi: uint64)
    requires lo < hi && Fetch(cm, lo).Some? && Fetch(m, lo) == WordIn(text, lo)
    requires cm == m || Covered(text, cm, lo, hi)
    ensures lo in text && Fetch(cm, lo) == Some(text[lo]) && Fetch(m, lo) == Some(text[lo]) && lo + 4 < TWO64
  {
    hide Fetch;
    var w := Fetch(cm, lo);
  }

  lemma CoveredNothing(text: Text, m: Mem, pc: uint64)
    ensures Covered(text, m, pc, pc)
  {
  }

  // ---------- one lookup ----------

  /**
   A cached address is served its own block whatever memory holds now. Any other lookup is a compilation: a
   block is cached there and served to every later lookup, and a failure leaves the cache as it was. No lookup
   touches another entry.
   */
  lemma LookupServes(env: Env, cache: Cache, m: Mem, pc: uint64)
    ensures var l := CompileAndGet(env, cache, m, pc);
            && (pc in cache ==> l.result == Compiled(cache[pc]) && l.cache == cache)
            && (pc !in cache ==> l.result == Compile(env, m, pc))
            && (l.result.Compiled? ==> forall m' :: CompileAndGet(env, l.cache, m', pc) == Lookup(l.cache, l.result))
            && (!l.result.Compiled? ==> l.cache == cache)
            && (forall q :: q != pc ==> (q in l.cache <==> q in cache) && (q in cache ==> l.cache[q] == cache[q]))
  {
    hide Compile;
  }

  // ---------- one execute ----------

  /** Whatever block an execute runs was compiled from words of the text. */
  lemma LookupFrom(env: Env, text: Text, cache: Cache, s: State)
    requires !s.ctx.exited && Stable(env, text, s) && CleanText(env, text) && CacheFrom(env, text, cache)
    ensures var l := CompileAndGet(env, cache, s.mem, s.ctx.pc);
            && CacheFrom(env, text, l.cache)
            && (l.result.Compiled? ==> exists cm :: EntryFrom(env, text, s.ctx.pc, l.result.block, cm))
  {
    hide Step, Build, Fetch, Run, Covered;
    var pc := s.ctx.pc;
    if pc !in cache {
      var b := StartBuilder(pc);
      RunNothing(env.fp, ContextLayout.Image(s.ctx.regs, pc));
      RunZero(env, s);
      BuildCovered(env, text, s.mem, b, s, s);
      var r := Compile(env, s.mem, pc);
      if r.Compiled? {
        assert EntryFrom(env, text, pc, r.block, s.mem);
        var cache' := cache[pc := r.block];
        forall q | q in cache'
          ensures exists cm :: EntryFrom(env, text, q, cache'[q], cm)
        {
          if q == pc {
            assert EntryFrom(env, text, q, cache'[q], s.mem);
          }
        }
      }
    }
  }

  /**
   What one execute does when the lookup gives a block. The block makes between one and a hundred steps of the
   plain run: `t` is the plain run's state after `j` of them, with the registers that the block leaves and the
   pc that it returns. If that pc is not the block's own start, the execute ends in `t`. Otherwise the block's
   effects stand and one more interpreter step follows: the execute ends as the plain run does after `j + 1`.
   */
  lemma ExecuteExact(env: Env, text: Text, cache: Cache, s: State) returns (j: nat, t: State)
    requires !s.ctx.exited && Stable(env, text, s) && CleanText(env, text) && CacheFrom(env, text, cache)
    requires CompileAndGet(env, cache, s.mem, s.ctx.pc).result.Compiled?
    ensures var block := CompileAndGet(env, cache, s.mem, s.ctx.pc).result.block;
            && 1 <= j <= 100 && Run(env, s, j) == Running(t) && t.mem == s.mem
            && RunBlock(env, block, s.ctx) == BlockRun(t.ctx.(pc := s.ctx.pc), t.ctx.pc)
    ensures var r := Execute(env, cache, s);
            && s.ctx.pc in r.cache && r.cache[s.ctx.pc] == CompileAndGet(env, cache, s.mem, s.ctx.pc).result.block
            && (t.ctx.pc != s.ctx.pc ==> r.state == t && r.outcome == Continue)
            && (t.ctx.pc == s.ctx.pc ==>
                  Run(env, s, j + 1) == if r.outcome.Continue? then Running(r.state) else Finish(StepResult(r.state, r.outcome)))
  {
    hide Step, Compile, RunBlock, Stable, StableState, Fetch, Covered, CleanText;
    LookupFrom(env, text, cache, s);
    var block := CompileAndGet(env, cache, s.mem, s.ctx.pc).result.block;
    var cm :| EntryFrom(env, text, s.ctx.pc, block, cm);
    EntryHolds(env, text, block, cm, s);
    CoveredClean(env, text, cm, s.mem, s.ctx.pc, block.endPc);
    j, t := BlockPreservesMeaning(env, cm, block, s);
    RunStep(env, s, j, t);
  }

  /**
   One execute is one or more steps of the plain run: if it continues, its state is the plain run's
   after those steps; if it stops, the plain run stops there with the same state and error. Where nothing
   compiles it is exactly one step.
   */
  lemma ExecuteRefines(env: Env, text: Text, cache: Cache, s: State) returns (k: nat)
    requires !s.ctx.exited && Stable(env, text, s) && CleanText(env, text) && CacheFrom(env, text, cache)
    ensures k >= 1 && (!CompileAndGet(env, cache, s.mem, s.ctx.pc).result.Compiled? ==> k == 1)
    ensures var r := Execute(env, cache, s);
            && CacheFrom(env, text, r.cache)
            && (r.outcome.Continue? ==> Run(env, s, k) == Running(r.state) && Stable(env, text, r.state))
            && (!r.outcome.Continue? ==> Run(env, s, k) == Finish(StepResult(r.state, r.outcome)))
  {
    hide Step, CompileAndGet, RunBlock, Stable, StableState, Fetch, Covered, CleanText;
    LookupFrom(env, text, cache, s);
    var r := Execute(env, cache, s);
    RunZero(env, s);
    RunStep(env, s, 0, s);
    k := 1;
    if CompileAndGet(env, cache, s.mem, s.ctx.pc).result.Compiled? {
      var j, t := ExecuteExact(env, text, cache, s);
      k := if t.ctx.pc != s.ctx.pc then j else j + 1;
    }
    if r.outcome.Continue? {
      StableLater(env, text, s, k, r.state);
    }
  }

  /** Where the run reaches a cached block, memory holds the words that the block was compiled from. */
  lemma EntryHolds(env: Env, text: Text, block: Block, cm: Mem, s: State)
    requires !s.ctx.exited && Stable(env, text, s) && CleanText(env, text)
    requires EntryFrom(env, text, s.ctx.pc, block, cm)
    ensures Covered(text, s.mem, s.ctx.pc, block.endPc)
  {
    hide Step, Build, Fetch, Run, Covered, Stable, CleanText;
    RunNothing(env.fp, ContextLayout.Image(s.ctx.regs, s.ctx.pc));
    RunZero(env, s);
    BuildCovered(env, text, cm, StartBuilder(s.ctx.pc), s, s);
  }

  lemma RunStep(env: Env, s: State, j: nat, t: State)
    requires Run(env, s, j) == Running(t)
    ensures var r := Step(env, t);
            Run(env, s, j + 1) == if r.outcome.Continue? then Running(r.state) else Finish(r)
  {
    hide Step;
    RunSplit(env, s, j, 1);
    var r := Step(env, t);
    if r.outcome.Continue? {
      RunZero(env, r.state);
    }
  }

  lemma ExitedEnds(env: Env, s: State)
    requires s.ctx.exited
    ensures Run(env, s, 1) == Ended(s, None)
  {
    hide Exec;
  }

  // ---------- whole runs ----------

  /** A chain of executes is at least as many plain steps, or ends as the plain run ends. */
  lemma {:induction false} ChainRefines(env: Env, text: Text, cache: Cache, s: State, max: nat) returns (k: nat)
    requires Stable(env, text, s) && CleanText(env, text) && CacheFrom(env, text, cache)
    ensures var r := Chain(env, cache, s, max);
            && CacheFrom(env, text, r.cache)
            && (r.outcome.Continue? ==>
                  k >= max && Run(env, s, k) == Running(r.state) && Stable(env, text, r.state) && !r.state.ctx.exited)
            && (!r.outcome.Continue? ==> Run(env, s, k) == Finish(StepResult(r.state, r.outcome)))
    decreases max
  {
    hide Step, Execute, Stable, CleanText, CacheFrom;
    if s.ctx.exited {
      ExitedEnds(env, s);
      return 1;
    }
    if max == 0 {
      RunZero(env, s);
      return 0;
    }
    var j := ExecuteRefines(env, text, cache, s);
    var r := Execute(env, cache, s);
    if r.outcome.Continue? {
      k := ChainRefines(env, text, r.cache, r.state, max - 1);
      RunSplit(env, s, j, k);
      k := j + k;
    } else {
      k := j;
      ExecuteExits(env, cache, s);
    }
  }

  /** An execute reports an exit only when the program has exited. */
  lemma ExecuteExits(env: Env, cache: Cache, s: State)
    ensures Execute(env, cache, s).outcome.Exited? ==> Execute(env, cache, s).state.ctx.exited
  {
    hide Compile, RunBlock, Step;
    StepExits(env, s);
    var l := CompileAndGet(env, cache, s.mem, s.ctx.pc);
    if l.result.Compiled? {
      StepExits(env, s.(ctx := RunBlock(env, l.result.block, s.ctx).ctx));
    }
  }

  lemma StepExits(env: Env, s: State)
    ensures Step(env, s).outcome.Exited? ==> Step(env, s).state.ctx.exited
  {
    hide DataEffect, Apply, Control, StorePair, LoadPair, Fetch, IsZeroLine, IsHint;
  }

  /** A chain of `a + b` executes is a chain of `a` and, if that can go on, a chain of `b` from where it stopped. */
  lemma {:induction false} ChainSplit(env: Env, cache: Cache, s: State, a: nat, b: nat)
    ensures var r := Chain(env, cache, s, a);
            Chain(env, cache, s, a + b) == if r.outcome.Continue? then Chain(env, r.cache, r.state, b) else r
    decreases a
  {
    hide Execute;
    if a > 0 && !s.ctx.exited {
      var r := Execute(env, cache, s);
      ExecuteExits(env, cache, s);
      if r.outcome.Continue? {
        ChainSplit(env, r.cache, r.state, a - 1, b);
      }
    }
  }

  /** The run loop makes at least a thousand plain steps a round, and ends as the plain run ends. */
  lemma {:induction false} RunJitRefines(env: Env, text: Text, cache: Cache, s: State, rounds: nat) returns (k: nat)
    requires Stable(env, text, s) && CleanText(env, text) && CacheFrom(env, text, cache)
    ensures var r := RunJit(env, cache, s, rounds);
            && CacheFrom(env, text, r.cache)
            && (r.run.Running? ==> k >= 1000 * rounds)
            && Run(env, s, k) == r.run
    decreases rounds
  {
    hide Step, Chain, Stable, CleanText, CacheFrom;
    if s.ctx.exited {
      ExitedEnds(env, s);
      return 1;
    }
    if rounds == 0 {
      RunZero(env, s);
      return 0;
    }
    var j := ChainRefines(env, text, cache, s, CHAIN_LENGTH);
    var r := Chain(env, cache, s, CHAIN_LENGTH);
    if r.outcome.Continue? {
      k := RunJitRefines(env, text, r.cache, r.state, rounds - 1);
      RunSplit(env, s, j, k);
      k := j + k;
    } else {
      k := j;
    }
  }

  /**
   The block engine refines the interpreter, for every program that finds the same word whenever it executes
   at an address and whose compiled instructions are in the agreeing fragment, from any cache of such blocks.
   If the plain run ends, by exit or by error, then the engine's run ends with the same context, memory
   and result, and within one round for every thousand steps of the plain run. If the engine's run ends, so does the plain run, and the same way.
   */
  lemma EngineRefinesInterpreter(env: Env, text: Text, cache: Cache, s: State, n: nat, rounds: nat)
    requires Stable(env, text, s) && CleanText(env, text) && CacheFrom(env, text, cache)
    ensures Run(env, s, n).Ended? && 1000 * rounds >= n ==> RunJit(env, cache, s, rounds).run == Run(env, s, n)
    ensures RunJit(env, cache, s, rounds).run.Ended? ==>
              exists k: nat :: Run(env, s, k) == RunJit(env, cache, s, rounds).run
  {
    hide Step, RunJit, Stable, CleanText, CacheFrom;
    var k := RunJitRefines(env, text, cache, s, rounds);
    if Run(env, s, n).Ended? && 1000 * rounds >= n {
      if k <= n {
        if Run(env, s, k).Ended? {
          EndedStays(env, s, k, n);
        }
      } else {
        EndedStays(env, s, n, k);
      }
    }
  }

  // ---------- the condition, stated on the run alone ----------

  ghost predicate ExecutesAt(env: Env, s: State, k: nat, pc: uint64) {
    Poised(Run(env, s, k)) && Run(env, s, k).state.ctx.pc == pc
  }

  /** What the run finds at the address it executes at after `k` steps. */
  ghost function WordFound(env: Env, s: State, k: nat): Option<uint32>
    requires Poised(Run(env, s, k))
  {
    Fetch(Run(env, s, k).state.mem, Run(env, s, k).state.ctx.pc)
  }

  /** Whenever the run comes back to an address it finds there what it found before. */
  ghost predicate SameWords(env: Env, s: State) {
    forall j: nat, k: nat, pc: uint64 :: ExecutesAt(env, s, j, pc) && ExecutesAt(env, s, k, pc) ==>
      WordFound(env, s, j) == WordFound(env, s, k)
  }

  /** Every executed word that the compiler handles is in the agreeing fragment. */
  ghost predicate CleanRun(env: Env, s: State) {
    forall k: nat, pc: uint64 :: ExecutesAt(env, s, k, pc) && WordFound(env, s, k).Some? ==>
      CleanWord(env, WordFound(env, s, k).value, pc)
  }

  ghost predicate Executed(env: Env, s: State, pc: uint64) {
    exists k: nat :: ExecutesAt(env, s, k, pc) && WordFound(env, s, k).Some?
  }

  ghost function ExecutedWord(env: Env, s: State, pc: uint64): uint32
    requires Executed(env, s, pc)
  {
    var k: nat :| ExecutesAt(env, s, k, pc) && WordFound(env, s, k).Some?;
    WordFound(env, s, k).value
  }

  /** Such a run has a text: the words it executes. */
  lemma TextOfRun(env: Env, s: State) returns (text: Text)
    requires SameWords(env, s) && CleanRun(env, s)
    ensures Stable(env, text, s) && CleanText(env, text)
  {
    hide Run, Fetch, CleanWord;
    text := map pc: uint64 | 0 <= pc < TWO64 && Executed(env, s, pc) :: ExecutedWord(env, s, pc);
    forall n: nat
      ensures StableState(text, Run(env, s, n))
    {
      var r := Run(env, s, n);
      if Poised(r) {
        assert ExecutesAt(env, s, n, r.state.ctx.pc);
      }
    }
  }

  /**
   From an empty cache the engine refines the interpreter for every program that, whenever it comes back to
   an address, finds there what it found before, and whose executed words that the compiler handles are in
   the agreeing fragment.
   */
  lemma EngineRefinesFromCold(env: Env, s: State, n: nat, rounds: nat)
    requires SameWords(env, s) && CleanRun(env, s)
    ensures Run(env, s, n).Ended? && 1000 * rounds >= n ==> RunJit(env, map[], s, rounds).run == Run(env, s, n)
    ensures RunJit(env, map[], s, rounds).run.Ended? ==>
              exists k: nat :: Run(env, s, k) == RunJit(env, map[], s, rounds).run
  {
    hide Run, RunJit, SameWords, CleanRun, Stable, CleanText;
    var text := TextOfRun(env, s);
    EngineRefinesInterpreter(env, text, map[], s, n, rounds);
  }

  // ---------- the cache over any history ----------

  /** A cache together with the memory each entry was compiled from. */
  datatype Stocked = Stocked(cache: Cache, origins: map<uint64, Mem>)

  predicate Sound(env: Env, c: Stocked) {
    && c.cache.Keys == c.origins.Keys
    && forall pc :: pc in c.cache ==> Compile(env, c.origins[pc], pc) == Compiled(c.cache[pc])
  }

  /** One lookup at `pc` while memory is `m`. */
  function Serve(env: Env, c: Stocked, m: Mem, pc: uint64): Stocked {
    var cache' := CompileAndGet(env, c.cache, m, pc).cache;
    Stocked(cache', if pc in cache' && pc !in c.cache then c.origins[pc := m] else c.origins)
  }

  /** Lookups in sequence; between them memory changes in any way, by steps or by new mappings. */
  function ServeAll(env: Env, c: Stocked, lookups: seq<(Mem, uint64)>): Stocked
    decreases |lookups|
  {
    if lookups == [] then c
    else ServeAll(env, Serve(env, c, lookups[0].0, lookups[0].1), lookups[1..])
  }

  /**
   Over any history of lookups the cache stays sound, keeps every entry it had unchanged, and gains an
   entry only where a lookup compiled; a failed compilation leaves no trace.
   */
  lemma {:induction false} CacheStaysSound(env: Env, c: Stocked, lookups: seq<(Mem, uint64)>)
    requires Sound(env, c)
    ensures var c' := ServeAll(env, c, lookups);
            && Sound(env, c')
            && (forall pc :: pc in c.cache ==> pc in c'.cache && c'.cache[pc] == c.cache[pc])
            && (forall pc :: pc in c'.cache && pc !in c.cache ==>
                  exists i :: 0 <= i < |lookups| && lookups[i].1 == pc && Compile(env, lookups[i].0, pc) == Compiled(c'.cache[pc]))
    decreases |lookups|
  {
    hide Compile;
    if lookups != [] {
      var m, pc := lookups[0].0, lookups[0].1;
      var c1 := Serve(env, c, m, pc);
      CacheStaysSound(env, c1, lookups[1..]);
      var c' := ServeAll(env, c, lookups);
      forall q | q in c'.cache && q !in c.cache
        ensures exists i :: 0 <= i < |lookups| && lookups[i].1 == q && Compile(env, lookups[i].0, q) == Compiled(c'.cache[q])
      {
        if q in c1.cache {
          assert lookups[0].1 == q && Compile(env, lookups[0].0, q) == Compiled(c'.cache[q]);
        } else {
          var j :| 0 <= j < |lookups[1..]| && lookups[1..][j].1 == q
                   && Compile(env, lookups[1..][j].0, q) == Compiled(c'.cache[q]);
          assert lookups[j + 1].1 == q;
        }
      }
    }
  }

  /**
   An entry of a sound cache summarises one to a hundred interpreter steps from any state at its pc
   whose memory still holds the bytes it was compiled from, however else memory has changed.
   */
  lemma CachedBlockSummarises(env: Env, c: Stocked, s: State) returns (k: nat, t: State)
    requires Sound(env, c) && s.ctx.pc in c.cache && !s.ctx.exited
    requires var b := c.cache[s.ctx.pc];
             && SameBytes(c.origins[s.ctx.pc], s.mem, b.startPc, b.endPc)
             && Clean(env, c.origins[s.ctx.pc], b.startPc, b.endPc)
    ensures c.cache[s.ctx.pc].startPc == s.ctx.pc
    ensures 1 <= k <= MAX_INSTRUCTIONS && Run(env, s, k) == Running(t) && t.mem == s.mem
    ensures RunBlock(env, c.cache[s.ctx.pc], s.ctx) == BlockRun(t.ctx.(pc := s.ctx.pc), t.ctx.pc)
  {
    hide Step, RunBlock, Compile, Run, Clean, Fetch;
    var b := c.cache[s.ctx.pc];
    BlockSpan(env, c.origins[s.ctx.pc], s.ctx.pc, b);
    SameBytesSameCode(c.origins[s.ctx.pc], s.mem, b.startPc, b.endPc);
    k, t := BlockPreservesMeaning(env, c.origins[s.ctx.pc], b, s);
  }

  lemma BlockSpan(env: Env, m: Mem, pc: uint64, b: Block)
    requires Compile(env, m, pc) == Compiled(b)
    ensures b.startPc == pc <= b.endPc && (b.endPc - b.startPc) % 4 == 0
  {
    hide Build;
    BuildAdvances(env, m, StartBuilder(pc));
  }
}
