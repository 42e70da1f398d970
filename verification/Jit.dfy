/** The block compiler as it runs: a cache filled in place, and run loops over context and memory. */
module Jit {
  import opened Words
  import opened Memory
  import opened Machine
  import opened Interp
  import opened Ir
  import opened Translator
  import opened Blocks
  import opened Engine
  import opened Cpu
  import opened Interpreter

  class JitEngine {
    var cache: Cache
    var hits: nat
    var misses: nat
    /** The memory that each entry was compiled from. */
    ghost var origins: map<uint64, Mem>

    ghost function Contents(): Stocked
      reads this
    {
      Stocked(cache, origins)
    }

    constructor ()
      ensures cache == map[] && hits == 0 && misses == 0
      ensures forall env: Env :: Sound(env, Contents())
    {
      cache, origins := map[], map[];
      hits, misses := 0, 0;
    }

    /** Looks a block up and counts the answer. */
    method GetBlock(pc: uint64) returns (block: Option<Block>)
      modifies this`hits, this`misses
      ensures block == if pc in cache then Some(cache[pc]) else None
      ensures hits == old(hits) + (if pc in cache then 1 else 0)
      ensures hits + misses == old(hits) + old(misses) + 1
    {
      if pc in cache {
        hits := hits + 1;
        return Some(cache[pc]);
      }
      misses := misses + 1;
      return None;
    }

    /**
     Returns the cached block, or translates up to a hundred instructions from `start` and caches the
     block they make. A failed translation leaves the cache alone, and soundness is kept.
     */
    method CompileAndGet(env: Env, start: uint64, mem: MemoryManager) returns (r: CompileResult)
      requires mem.Valid()
      modifies this`cache, this`origins
      ensures Lookup(cache, r) == Engine.CompileAndGet(env, old(cache), mem.State(), start)
      ensures Contents() == Serve(env, old(Contents()), mem.State(), start)
      ensures old(Sound(env, Contents())) ==> Sound(env, Contents())
      ensures r.Compiled? <==> start in cache
    {
      hide Sound;
      if start in cache {
        return Compiled(cache[start]);
      }
      r := TranslateBlock(env, start, mem);
      SoundServe(env, Contents(), mem.State(), start);
      if r.Compiled? {
        cache := cache[start := r.block];
        origins := origins[start := mem.State()];
      }
    }

    /** Runs the block at the current pc; where there is none, or it returns its own start, takes a step. */
    method Execute(env: Env, ctx: CpuContext, mem: MemoryManager) returns (outcome: Outcome)
      requires ctx.Valid() && mem.Valid() && KeepsMemory(env)
      modifies this`cache, this`origins, ctx, ctx.x, ctx.v, mem
      ensures mem.Valid()
      ensures ExecResult(cache, StateOf(ctx, mem), outcome) == Engine.Execute(env, old(cache), old(StateOf(ctx, mem)))
      ensures old(Sound(env, Contents())) ==> Sound(env, Contents())
    {
      hide KeepsMemory, Disjoint, RunBlock, Sound, Interp.Step, Compile;
      var pc := ctx.pc;
      var r := CompileAndGet(env, pc, mem);
      if r.Compiled? {
        var run := RunBlock(env, r.block, ctx.Value());
        ctx.Assign(run.ctx);
        if run.next != pc {
          ctx.pc := run.next;
          return if ctx.exited then Exited else Continue;
        }
      }
      outcome := Interpreter.Step(env, ctx, mem);
    }

    /** Up to `maxChain` executes; stops early when the program ends. */
    method ExecuteBlockChain(env: Env, ctx: CpuContext, mem: MemoryManager, maxChain: nat) returns (outcome: Outcome)
      requires ctx.Valid() && mem.Valid() && KeepsMemory(env)
      modifies this`cache, this`origins, ctx, ctx.x, ctx.v, mem
      ensures mem.Valid()
      ensures ExecResult(cache, StateOf(ctx, mem), outcome) == Chain(env, old(cache), old(StateOf(ctx, mem)), maxChain)
      ensures old(Sound(env, Contents())) ==> Sound(env, Contents())
    {
      hide KeepsMemory, Disjoint, Sound, Engine.Execute;
      var count := 0;
      while count < maxChain && !ctx.exited
        invariant 0 <= count <= maxChain
        invariant mem.Valid()
        invariant Chain(env, cache, StateOf(ctx, mem), maxChain - count) ==
                  Chain(env, old(cache), old(StateOf(ctx, mem)), maxChain)
        invariant old(Sound(env, Contents())) ==> Sound(env, Contents())
      {
        var res := Execute(env, ctx, mem);
        if res.Failed? {
          return res;
        }
        if res.Exited? {
          return if ctx.exited then Exited else Continue;
        }
        count := count + 1;
      }
      return if ctx.exited then Exited else Continue;
    }
  }

  lemma SoundServe(env: Env, c: Stocked, m: Mem, pc: uint64)
    ensures Sound(env, c) ==> Sound(env, Serve(env, c, m, pc))
  {
    hide Compile;
  }

  /** The translation loop, from the instruction at `start`. */
  method TranslateBlock(env: Env, start: uint64, mem: MemoryManager) returns (r: CompileResult)
    requires mem.Valid()
    ensures r == Compile(env, mem.State(), start)
  {
    hide Translate, ReadSpec, FromLe32, Disjoint;
    var m := mem.State();
    var code: seq<Ir> := [];
    var curPc := start;
    var instCount := 0;
    var endedBlock, compiledAny := false, false;
    var ret := 0;
    while instCount < MAX_INSTRUCTIONS && !endedBlock
      invariant 0 <= instCount <= MAX_INSTRUCTIONS
      invariant Build(env, m, Builder(code, curPc, instCount, endedBlock, compiledAny, ret, false)) ==
                Build(env, m, StartBuilder(start))
      decreases MAX_INSTRUCTIONS - instCount
    {
      var bytes := mem.Read(curPc, 4);
      if bytes.None? {
        break;
      }
      var inst := env.decode(FromLe32(bytes.value), curPc);
      if inst.None? {
        break;
      }
      var t := Translate(code, inst.value, curPc);
      match t.kind {
        case Inert =>
        case Emitted =>
          compiledAny := true;
        case EndsBlock(val) =>
          ret := val;
          endedBlock := true;
          compiledAny := true;
        case Boundary =>
          if !compiledAny {
            return Unhandled(curPc);
          }
      }
      code := t.code;
      if t.kind.Boundary? {
        var here := Push(code, Iconst(curPc));
        code, ret := here.code, here.val;
        endedBlock := true;
      }
      curPc := curPc + 4;
      instCount := instCount + 1;
    }
    if !compiledAny {
      return NothingCompiled(start);
    }
    if !endedBlock {
      var here := Push(code, Iconst(curPc));
      code, ret := here.code, here.val;
    }
    return Compiled(Block(start, curPc, code, ret));
  }

  /** One execute, as the stepping interface of the engine. */
  method StepWithJit(env: Env, ctx: CpuContext, mem: MemoryManager, jit: JitEngine) returns (outcome: Outcome)
    requires ctx.Valid() && mem.Valid() && KeepsMemory(env)
    modifies jit`cache, jit`origins, ctx, ctx.x, ctx.v, mem
    ensures mem.Valid()
    ensures ExecResult(jit.cache, StateOf(ctx, mem), outcome) == Chain(env, old(jit.cache), old(StateOf(ctx, mem)), 1)
  {
    outcome := jit.ExecuteBlockChain(env, ctx, mem, 1);
  }

  /**
   The run loop over cached blocks. For a program whose plain run ends and finds the same word whenever it
   executes at an address, with compiled instructions in the agreeing fragment, the loop ends too, and it
   leaves the context, the memory and the error of the plain run.
   */
  method RunWithJit(env: Env, ctx: CpuContext, mem: MemoryManager, jit: JitEngine, ghost text: Text, ghost n: nat)
    returns (error: Option<Error>)
    requires ctx.Valid() && mem.Valid() && KeepsMemory(env)
    requires Stable(env, text, StateOf(ctx, mem)) && CleanText(env, text) && CacheFrom(env, text, jit.cache)
    requires Interp.Run(env, StateOf(ctx, mem), n).Ended?
    modifies jit`cache, jit`origins, ctx, ctx.x, ctx.v, mem
    ensures mem.Valid()
    ensures Ended(StateOf(ctx, mem), error) == Interp.Run(env, old(StateOf(ctx, mem)), n)
    ensures CacheFrom(env, text, jit.cache)
  {
    hide KeepsMemory, Disjoint, Interp.Run, Chain, Stable, CleanText, CacheFrom, Sound;
    EngineRefinesInterpreter(env, text, jit.cache, StateOf(ctx, mem), n, n);
    ghost var k := RunJitRefines(env, text, jit.cache, StateOf(ctx, mem), n);
    ghost var rounds := n;
    while !ctx.exited
      invariant mem.Valid()
      invariant RunJit(env, jit.cache, StateOf(ctx, mem), rounds) == RunJit(env, old(jit.cache), old(StateOf(ctx, mem)), n)
      decreases rounds
    {
      var res := jit.ExecuteBlockChain(env, ctx, mem, CHAIN_LENGTH);
      if res.Failed? {
        return Some(res.error);
      }
      if res.Exited? {
        break;
      }
      rounds := rounds - 1;
    }
    return None;
  }
}
