/** Nested stack frames: pre-indexed pair pushes and matching post-indexed pair pops on the stack pointer. */
module Frames {
  import opened Words
  import opened Memory
  import opened Footprint
  import opened Machine
  import opened Interp

  /**
   What a routine does to its registers and stack: overwrite a register, or call a routine inside a frame
   that saves two registers in `size` bytes.
   */
  datatype Act = Clobber(reg: GprIndex, val: uint64) | Frame(r1: GprIndex, r2: GprIndex, size: nat, body: seq<Act>)

  predicate LegalSize(size: nat) { 16 <= size <= 512 }

  predicate Legal(acts: seq<Act>) {
    forall i :: 0 <= i < |acts| ==> LegalAct(acts[i])
  }

  predicate LegalAct(a: Act) { a.Frame? ==> LegalSize(a.size) && Legal(a.body) }

  /** Bytes of stack the acts need below the starting stack pointer. */
  function Depth(acts: seq<Act>): nat {
    if acts == [] then 0
    else
      var here := if acts[0].Frame? then acts[0].size + Depth(acts[0].body) else 0;
      var rest := Depth(acts[1..]);
      if here > rest then here else rest
  }

  /** Whether register `r` is only ever overwritten inside frames that save it. */
  predicate Preserves(acts: seq<Act>, r: GprIndex) {
    forall i :: 0 <= i < |acts| ==> PreservesAct(acts[i], r)
  }

  predicate PreservesAct(a: Act, r: GprIndex) {
    match a
    case Clobber(reg, _) => reg != r
    case Frame(r1, r2, _, body) => r == r1 || r == r2 || Preserves(body, r)
  }

  // ---------- execution by the interpreter's own pair arms ----------

  function Push(r1: GprIndex, r2: GprIndex, size: nat): seq<Operand>
    requires LegalSize(size)
  {
    [RegOp(X(r1)), RegOp(X(r2)), MemPreIdx(SP, SignedImm(0 - size))]
  }

  function Pop(r1: GprIndex, r2: GprIndex, size: nat): seq<Operand>
    requires LegalSize(size)
  {
    [RegOp(X(r1)), RegOp(X(r2)), MemPostIdxImm(SP, SignedImm(size))]
  }

  /** Registers and segments after the acts; a failed store or load keeps `ok` false from then on. */
  function Perform(acts: seq<Act>, st: PairResult): PairResult
    requires Legal(acts)
    decreases acts
  {
    if acts == [] || !st.ok then st
    else
      var first := acts[0];
      assert LegalAct(first);
      var st1 :=
        match first
        case Clobber(reg, val) => st.(regs := SetReg(X(reg), val, st.regs))
        case Frame(r1, r2, size, body) =>
          var pushed := StorePair(Push(r1, r2, size), st.regs, st.segments);
          var done := Perform(body, pushed);
          if done.ok then LoadPair(Pop(r1, r2, size), done.regs, done.segments) else done;
      Perform(acts[1..], st1)
  }

  // ---------- one push and one pop ----------

  lemma PushStores(r1: GprIndex, r2: GprIndex, size: nat, s: Regs, m: seq<Segment>)
    requires LegalSize(size) && s.sp >= size && Mapped(m, s.sp - size, size)
    ensures var p := StorePair(Push(r1, r2, size), s, m);
            var a := s.sp - size;
            && p.ok && p.regs == s.(sp := a)
            && ChangesOnly(m, p.segments, a, s.sp)
            && Read64(p.segments, a) == Some(s.x[r1]) && Read64(p.segments, a + 8) == Some(s.x[r2])
  {
    hide WriteSpec, ReadSpec, ByteAt, Le;
    var a := s.sp - size;
    var v1, v2 := Le(s.x[r1], 8), Le(s.x[r2], 8);
    PushAddress(r1, r2, size, s);
    assert Mapped(m, a, 8);
    WriteChangesOnly(m, a, v1);
    var m1 := WriteSpec(m, a, v1).segments;
    assert Mapped(m1, a + 8, 8) by { MappedStays(m, m1, a, a + 8, s.sp - size, size); }
    WriteChangesOnly(m1, a + 8, v2);
    var m2 := WriteSpec(m1, a + 8, v2).segments;
    ReadCongruence(m1, m2, a, 8);
    LeRoundTrip64(s.x[r1]);
    LeRoundTrip64(s.x[r2]);
    assert Wrap64(a + 8) == a + 8;
  }

  /** The address and the registers that a push works with. */
  lemma PushAddress(r1: GprIndex, r2: GprIndex, size: nat, s: Regs)
    requires LegalSize(size) && s.sp >= size
    ensures MemAddr(MemPreIdx(SP, SignedImm(0 - size)), s) == Address(s.(sp := s.sp - size), Some(s.sp - size))
    ensures OperandVal(RegOp(X(r1)), s.(sp := s.sp - size)) == s.x[r1]
    ensures OperandVal(RegOp(X(r2)), s.(sp := s.sp - size)) == s.x[r2]
  {
  }

  lemma PopAddress(size: nat, s: Regs)
    requires LegalSize(size) && s.sp + size < TWO64
    ensures MemAddr(MemPostIdxImm(SP, SignedImm(size)), s) == Address(s.(sp := s.sp + size), Some(s.sp))
  {
  }

  lemma PopLoads(r1: GprIndex, r2: GprIndex, size: nat, v1: uint64, v2: uint64, s: Regs, m: seq<Segment>)
    requires LegalSize(size) && s.sp + size < TWO64
    requires Read64(m, s.sp) == Some(v1) && Read64(m, s.sp + 8) == Some(v2)
    ensures LoadPair(Pop(r1, r2, size), s, m) ==
            PairResult(SetReg(X(r2), v2, SetReg(X(r1), v1, s.(sp := s.sp + size))), m, true)
  {
    hide ReadSpec;
    PopAddress(size, s);
    assert Wrap64(s.sp + 8) == s.sp + 8;
  }

  // ---------- whole routines ----------

  /** What the acts have kept, from `st` to `st'`. */
  ghost predicate Kept(acts: seq<Act>, st: PairResult, st': PairResult) {
    && st'.ok
    && st'.regs.sp == st.regs.sp
    && (forall r: GprIndex :: Preserves(acts, r) ==> st'.regs.x[r] == st.regs.x[r])
    && ChangesOnly(st.segments, st'.segments, st.regs.sp - Depth(acts), st.regs.sp)
  }

  predicate Room(acts: seq<Act>, st: PairResult) {
    && st.ok && Depth(acts) <= st.regs.sp
    && Mapped(st.segments, st.regs.sp - Depth(acts), Depth(acts))
  }

  lemma DepthParts(acts: seq<Act>)
    requires acts != []
    ensures Depth(acts) >= Depth(acts[1..])
    ensures acts[0].Frame? ==> Depth(acts) >= acts[0].size + Depth(acts[0].body)
  {
  }

  /**
   Any well-nested, arbitrarily deep run of frames restores state. Given mapped stack for its depth and no
   address wrap, it succeeds, the stack pointer ends where it began, every register that is only overwritten
   inside frames saving it ends at its original value, and memory changes only between the lowest stack pointer
   and the starting one.
   */
  lemma {:induction false} NestedFramesRestore(acts: seq<Act>, st: PairResult)
    requires Legal(acts) && Room(acts, st)
    ensures Kept(acts, st, Perform(acts, st))
    decreases acts
  {
    hide StorePair, LoadPair, ByteAt, Legal, Mapped;
    if acts == [] {
      NothingChanges(st.segments, st.regs.sp);
    } else {
      LegalParts(acts);
      DepthParts(acts);
      var st1: PairResult;
      match acts[0] {
        case Clobber(reg, val) =>
          st1 := st.(regs := SetReg(X(reg), val, st.regs));
          NothingChanges(st.segments, st.regs.sp);
        case Frame(r1, r2, size, body) =>
          var d := size + Depth(body);
          MappedPart(st.segments, st.regs.sp - Depth(acts), Depth(acts), st.regs.sp - d, d);
          st1 := FrameRestores(acts[0], st);
      }
      RoomStays(acts, st, st1);
      NestedFramesRestore(acts[1..], st1);
      var st' := Perform(acts, st);
      assert st' == Perform(acts[1..], st1);
      ChangesCompose(st.segments, st1.segments, st'.segments, st.regs.sp - Depth(acts), st.regs.sp,
                     st.regs.sp - Depth(acts), st.regs.sp, st.regs.sp - Depth(acts[1..]), st.regs.sp);
      PreservesParts(acts);
    }
  }

  lemma LegalParts(acts: seq<Act>)
    requires Legal(acts) && acts != []
    ensures LegalAct(acts[0]) && Legal(acts[1..])
  {
  }

  lemma PreservesParts(acts: seq<Act>)
    requires acts != []
    ensures forall r: GprIndex :: Preserves(acts, r) ==> PreservesAct(acts[0], r) && Preserves(acts[1..], r)
  {
  }

  lemma RoomStays(acts: seq<Act>, st: PairResult, st1: PairResult)
    requires acts != [] && Room(acts, st) && st1.ok && st1.regs.sp == st.regs.sp
    requires ChangesOnly(st.segments, st1.segments, st.regs.sp - Depth(acts), st.regs.sp)
    ensures Room(acts[1..], st1)
  {
    hide ByteAt;
    DepthParts(acts);
  }

  /** One frame, its body included, by the induction on its body. */
  lemma {:induction false} FrameRestores(act: Act, st: PairResult) returns (st1: PairResult)
    requires act.Frame? && LegalAct(act) && st.ok
    requires var d := act.size + Depth(act.body);
             d <= st.regs.sp && Mapped(st.segments, st.regs.sp - d, d)
    ensures st1 == (var pushed := StorePair(Push(act.r1, act.r2, act.size), st.regs, st.segments);
                    var done := Perform(act.body, pushed);
                    if done.ok then LoadPair(Pop(act.r1, act.r2, act.size), done.regs, done.segments) else done)
    ensures st1.ok && st1.regs.sp == st.regs.sp
    ensures forall r: GprIndex :: PreservesAct(act, r) ==> st1.regs.x[r] == st.regs.x[r]
    ensures ChangesOnly(st.segments, st1.segments, st.regs.sp - (act.size + Depth(act.body)), st.regs.sp)
    decreases act
  {
    hide StorePair, LoadPair, ByteAt, ReadSpec, Perform, Legal, Mapped, Preserves;
    var Frame(r1, r2, size, body) := act;
    var sp, d := st.regs.sp, Depth(body);
    MappedPart(st.segments, sp - size - d, size + d, sp - size, size);
    PushStores(r1, r2, size, st.regs, st.segments);
    var pushed := StorePair(Push(r1, r2, size), st.regs, st.segments);
    MappedStays(st.segments, pushed.segments, sp - size, sp, sp - size - d, size + d);
    MappedPart(pushed.segments, sp - size - d, size + d, sp - size - d, d);
    NestedFramesRestore(body, pushed);
    var done := Perform(body, pushed);
    SameRead(pushed.segments, done.segments, sp - size - d, sp - size, sp - size);
    SameRead(pushed.segments, done.segments, sp - size - d, sp - size, sp - size + 8);
    PopLoads(r1, r2, size, st.regs.x[r1], st.regs.x[r2], done.regs, done.segments);
    st1 := LoadPair(Pop(r1, r2, size), done.regs, done.segments);
    ChangesCompose(st.segments, pushed.segments, done.segments, sp - size - d, sp, sp - size, sp, sp - size - d, sp - size);
  }
}
