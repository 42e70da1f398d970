/** A program that maps its code as it runs, meets every condition of the refinement, and runs a compiled block. */
module Witness {
  import opened Words
  import opened Memory
  import opened Machine
  import opened Alu
  import opened Interp
  import opened Translator
  import opened Ir
  import opened Fragment
  import opened Blocks
  import opened Engine

  const START: uint64 := 0x1000

  /** Word 1 decodes to NOP, word 2 to a system call, and nothing else decodes. */
  function Decode(w: uint32, pc: uint64): Option<Inst> {
    if w == 1 then Some(Inst(NOP, [])) else if w == 2 then Some(Inst(SVC, [])) else None
  }

  /** The system call maps eight bytes of code after the caller: a NOP, and a word that does not decode. */
  const HOST := Env(
    Decode,
    (c, m) => ArmResult(c, MAPPED, None),
    (i, c, m) => ArmResult(c, m, None),
    (op, a, b) => 0)

  const CALL: Segment := Mapping(START, [2, 0, 0, 0])

  const CODE: Segment := Mapping(START + 4, [1, 0, 0, 0, 0, 0, 0, 0])

  const FRESH := Mem([CALL], 0, 0, 0, 0)

  const MAPPED := Mem([CALL, CODE], 0, 0, 0, 0)

  const TEXT: Text := map[START := 2, START + 4 := 1, START + 8 := 0]

  function At(pc: uint64, m: Mem): State {
    State(Ctx(RegFile(seq(31, _ => 0), 0, 0, 0, seq(32, _ => VecReg(0, 0)), 0), pc, false, 0, Linux), m)
  }

  lemma FreshBytes(a: nat)
    ensures ByteAt(FRESH.segments, a) == if START <= a < START + 4 then Some(CALL.data[a - START]) else None
  {
    assert FRESH.segments[0].Contains(a) <==> START <= a < START + 4;
  }

  lemma MappedBytes(a: nat)
    requires START + 4 <= a < START + 12
    ensures ByteAt(MAPPED.segments, a) == Some(CODE.data[a - START - 4])
  {
    assert !MAPPED.segments[0].Contains(a) && MAPPED.segments[1].Contains(a);
  }

  lemma WordValues()
    ensures FromLe32([0, 0, 0, 0]) == 0 && FromLe32([1, 0, 0, 0]) == 1 && FromLe32([2, 0, 0, 0]) == 2
  {
    var z: seq<byte> := [0, 0, 0, 0];
    assert z[1..] == [0, 0, 0] && z[1..][1..] == [0, 0] && z[1..][1..][1..] == [0];
    var one: seq<byte> := [1, 0, 0, 0];
    var two: seq<byte> := [2, 0, 0, 0];
    assert one[1..] == [0, 0, 0] && two[1..] == [0, 0, 0];
  }

  lemma ReadCall()
    ensures Fetch(FRESH, START) == Some(2) && Fetch(FRESH, START + 4) == None
  {
    hide ReadSpec, ByteAt, FromLe32, FromLe;
    WordValues();
    var d := CALL.data;
    forall k | 0 <= k < |d|
      ensures ByteAt(FRESH.segments, START + k) == Some(d[k])
    {
      FreshBytes(START + k);
    }
    ReadUnique(FRESH.segments, START, d);
    FreshBytes(START + 4);
  }

  lemma ReadCode(off: nat, d: seq<byte>)
    requires |d| == 4 && off + 4 <= 8 && d == CODE.data[off..off + 4]
    ensures ReadSpec(MAPPED.segments, START + 4 + off, 4) == Some(d)
  {
    hide ReadSpec, ByteAt;
    var a := START + 4 + off;
    forall k | 0 <= k < |d|
      ensures ByteAt(MAPPED.segments, a + k) == Some(d[k])
    {
      MappedBytes(a + k);
      assert CODE.data[off + k] == d[k];
    }
    ReadUnique(MAPPED.segments, a, d);
  }

  lemma CodeWords()
    ensures Fetch(MAPPED, START + 4) == Some(1) && Fetch(MAPPED, START + 8) == Some(0)
  {
    hide ReadSpec, FromLe32, FromLe;
    WordValues();
    ReadCode(0, [1, 0, 0, 0]);
    ReadCode(4, [0, 0, 0, 0]);
  }

  lemma NotSpecial()
    ensures !IsZeroLine(0) && !IsZeroLine(1) && !IsZeroLine(2) && !IsHint(0)
  {
  }

  lemma Steps()
    ensures Step(HOST, At(START, FRESH)) == StepResult(At(START + 4, MAPPED), Continue)
    ensures Step(HOST, At(START + 4, MAPPED)) == StepResult(At(START + 8, MAPPED), Continue)
    ensures Step(HOST, At(START + 8, MAPPED)) == StepResult(At(START + 8, MAPPED), Failed(DecodeFault(START + 8)))
  {
    hide Fetch, IsZeroLine, IsHint;
    ReadCall();
    CodeWords();
    NotSpecial();
  }

  lemma Runs(n: nat)
    ensures Run(HOST, At(START, FRESH), n) ==
            if n == 0 then Running(At(START, FRESH)) else if n == 1 then Running(At(START + 4, MAPPED))
            else if n == 2 then Running(At(START + 8, MAPPED))
            else Ended(At(START + 8, MAPPED), Some(DecodeFault(START + 8)))
  {
    hide Step;
    Steps();
    if n >= 1 {
      assert Run(HOST, At(START, FRESH), n) == Run(HOST, At(START + 4, MAPPED), n - 1);
    }
    if n >= 2 {
      assert Run(HOST, At(START + 4, MAPPED), n - 1) == Run(HOST, At(START + 8, MAPPED), n - 2);
    }
  }

  /**
   The conditions of the refinement hold of this program from the empty cache, although its code is not mapped
   at the start; the code it maps is compiled; and the engine ends as the interpreter does, with the decode error.
   */
  lemma ConditionsMet()
    ensures Stable(HOST, TEXT, At(START, FRESH)) && CleanText(HOST, TEXT) && CacheFrom(HOST, TEXT, map[])
    ensures Fetch(FRESH, START + 4) == None
    ensures Compile(HOST, MAPPED, START + 4).Compiled? && Compile(HOST, MAPPED, START + 4).block.endPc == START + 8
    ensures Run(HOST, At(START, FRESH), 3).Ended?
    ensures RunJit(HOST, map[], At(START, FRESH), 1).run == Ended(At(START + 8, MAPPED), Some(DecodeFault(START + 8)))
  {
    hide Step, RunJit, Fetch, Run, IsZeroLine;
    ReadCall();
    CodeWords();
    Runs(3);
    forall n: nat
      ensures StableState(TEXT, Run(HOST, At(START, FRESH), n))
    {
      Runs(n);
    }
    NotSpecial();
    assert CleanWord(HOST, 2, START) && CleanWord(HOST, 1, START + 4) && CleanWord(HOST, 0, START + 8);
    BlockIsNop();
    EngineRefinesInterpreter(HOST, TEXT, map[], At(START, FRESH), 3, 1);
  }

  lemma BlockIsNop()
    ensures Compile(HOST, MAPPED, START + 4).Compiled? && Compile(HOST, MAPPED, START + 4).block.endPc == START + 8
  {
    hide Fetch;
    CodeWords();
    var b := StartBuilder(START + 4);
    var b1 := AddInstruction(b, Inst(NOP, []));
    assert b1 == b.(pc := START + 8, count := 1, any := true);
    assert Build(HOST, MAPPED, b1) == b1;
    assert Build(HOST, MAPPED, b) == b1;
  }
}
