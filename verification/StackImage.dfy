/** The initial stack of a loaded program, built downward from a fixed top. */
module StackImage {
  import opened Words
  import opened Memory
  import opened Footprint

  const STACK_TOP: nat := 0x7fff_f000_0000
  const STACK_SIZE: nat := 0x20_0000
  const STACK_START: nat := STACK_TOP - 0x1000

  type Bytes = seq<byte>

  /** The bytes of "aarch64" with its terminating NUL. */
  const PLATFORM: Bytes := [97, 97, 114, 99, 104, 54, 52, 0]

  const RANDOM: Bytes := [0x42, 0x42, 0x42, 0x42, 0x42, 0x42, 0x42, 0x42, 0x42, 0x42, 0x42, 0x42, 0x42, 0x42, 0x42, 0x42]

  /** The values that the auxiliary vector takes from the executable. */
  datatype ProgramInfo = ProgramInfo(phdr: uint64, phentsize: uint64, phnum: uint64, entry: uint64)

  function Auxv(info: ProgramInfo, platform: uint64, random: uint64): (aux: seq<(uint64, uint64)>)
    ensures |aux| == 18 && aux[17] == (0, 0)
  {
    [(3, info.phdr), (4, info.phentsize), (5, info.phnum), (6, 4096), (7, 0), (8, 0), (9, info.entry),
     (11, 0), (12, 0), (13, 0), (14, 0), (15, platform), (16, 0), (17, 100), (23, 0), (25, random), (26, 0), (0, 0)]
  }

  /** Key, value, key, value. */
  function Flat(pairs: seq<(uint64, uint64)>): (ws: seq<uint64>)
    ensures |ws| == 2 * |pairs|
  {
    if pairs == [] then [] else [pairs[0].0, pairs[0].1] + Flat(pairs[1..])
  }

  /** Stack bytes that the strings take, each with its NUL. */
  function Size(strs: seq<Bytes>): nat {
    if strs == [] then 0 else Size(strs[..|strs| - 1]) + |strs[|strs| - 1]| + 1
  }

  function WordCount(args: nat, envs: nat): nat { 1 + args + 1 + envs + 1 + 36 }

  /** The most stack that the image can take, alignment included. */
  function Needed(args: seq<Bytes>, envs: seq<Bytes>): nat {
    Size(args) + Size(envs) + 8 + 16 + 15 + 8 + 8 * WordCount(|args|, |envs|)
  }

  predicate Fits(args: seq<Bytes>, envs: seq<Bytes>) { Needed(args, envs) <= STACK_SIZE - 0x1000 }

  // ---------- what is in memory ----------

  /** String `i`, NUL-terminated, is at pointer `i`, in `[lo, hi)`. */
  predicate StringsAt(m: seq<Segment>, strs: seq<Bytes>, ptrs: seq<uint64>, lo: int, hi: int) {
    && |ptrs| == |strs|
    && forall i :: 0 <= i < |strs| ==> StringAt(m, strs[i], ptrs[i], lo, hi)
  }

  predicate StringAt(m: seq<Segment>, s: Bytes, p: uint64, lo: int, hi: int) {
    lo <= p && p + |s| + 1 <= hi && ReadSpec(m, p, |s| + 1) == Some(s + [0])
  }

  /** The words from `sp` upward. */
  predicate WordsAt(m: seq<Segment>, sp: nat, ws: seq<uint64>) {
    forall i :: 0 <= i < |ws| ==> Read64(m, sp + 8 * i) == Some(ws[i])
  }

  lemma StringsStay(m: seq<Segment>, m': seq<Segment>, strs: seq<Bytes>, ptrs: seq<uint64>, lo: int, hi: int, b: int, t: int)
    requires StringsAt(m, strs, ptrs, lo, hi) && ChangesOnly(m, m', b, t) && t <= lo
    ensures StringsAt(m', strs, ptrs, lo, hi)
  {
    hide ByteAt, ReadSpec;
    forall i | 0 <= i < |strs|
      ensures StringAt(m', strs[i], ptrs[i], lo, hi)
    {
      assert StringAt(m, strs[i], ptrs[i], lo, hi);
      ReadCongruence(m, m', ptrs[i], |strs[i]| + 1);
    }
  }

  lemma ReadStays(m: seq<Segment>, m': seq<Segment>, b: int, t: int, a: nat, n: nat)
    requires ChangesOnly(m, m', b, t) && t <= a
    ensures ReadSpec(m', a, n) == ReadSpec(m, a, n)
  {
    hide ByteAt, ReadSpec;
    ReadCongruence(m, m', a, n);
  }

  lemma WordsStay(m: seq<Segment>, m': seq<Segment>, sp: nat, ws: seq<uint64>, b: int, t: int)
    requires WordsAt(m, sp, ws) && ChangesOnly(m, m', b, t) && t <= sp
    ensures WordsAt(m', sp, ws)
  {
    hide ByteAt, Read64;
    forall i | 0 <= i < |ws|
      ensures Read64(m', sp + 8 * i) == Some(ws[i])
    {
      SameRead(m, m', b, t, sp + 8 * i);
    }
  }

  // ---------- pushing ----------

  /** `[sp - n, sp)` is a mapped part of the stack. */
  predicate Below(m: seq<Segment>, sp: nat, n: nat) { n <= sp < TWO64 && Mapped(m, sp - n, n) }

  lemma BelowAfter(m: seq<Segment>, m': seq<Segment>, sp: nat, n: nat, k: nat, b: int, t: int)
    requires Below(m, sp, n) && k <= n && ChangesOnly(m, m', b, t)
    ensures Below(m', sp - k, n - k)
  {
    MappedPart(m, sp - n, n, sp - n, n - k);
    MappedStays(m, m', b, t, sp - n, n - k);
  }

  lemma SameShapeSelf(m: seq<Segment>)
    ensures SameShape(m, m)
  {
  }

  method PushBytes(mem: MemoryManager, sp: uint64, data: Bytes) returns (sp': uint64)
    requires mem.Valid() && Below(mem.segments, sp, |data|)
    modifies mem
    ensures mem.Valid() && sp' == sp - |data|
    ensures mem.State() == old(mem.State()).(segments := mem.segments)
    ensures SameShape(old(mem.segments), mem.segments)
    ensures ChangesOnly(old(mem.segments), mem.segments, sp', sp)
    ensures ReadSpec(mem.segments, sp', |data|) == Some(data)
  {
    hide SameShape, ByteAt, ReadSpec, WriteSpec;
    sp' := sp - |data|;
    WriteChangesOnly(mem.segments, sp', data);
    WriteKeepsShape(mem.segments, sp', data);
    var ok := mem.Write(sp', data);
  }

  /** The bytes of a string and then its NUL, in two writes. */
  method PushString(mem: MemoryManager, sp: uint64, s: Bytes) returns (sp': uint64)
    requires mem.Valid() && Below(mem.segments, sp, |s| + 1)
    modifies mem
    ensures mem.Valid() && sp' == sp - (|s| + 1)
    ensures mem.State() == old(mem.State()).(segments := mem.segments)
    ensures SameShape(old(mem.segments), mem.segments)
    ensures ChangesOnly(old(mem.segments), mem.segments, sp', sp)
    ensures StringAt(mem.segments, s, sp', sp', sp)
  {
    hide SameShape, ByteAt, ReadSpec, WriteSpec;
    ghost var m0 := mem.segments;
    sp' := sp - (|s| + 1);
    MappedPart(m0, sp', |s| + 1, sp', |s|);
    WriteChangesOnly(m0, sp', s);
    WriteKeepsShape(m0, sp', s);
    var ok := mem.Write(sp', s);
    ghost var m1 := mem.segments;
    MappedStays(m0, m1, sp', sp' + |s|, sp', |s| + 1);
    MappedPart(m1, sp', |s| + 1, sp' + |s|, 1);
    WriteChangesOnly(m1, sp' + |s|, [0]);
    WriteKeepsShape(m1, sp' + |s|, [0]);
    ok := mem.Write(sp' + |s|, [0]);
    ghost var m2 := mem.segments;
    ShapeTransitive(m0, m1, m2);
    ChangesCompose(m0, m1, m2, sp', sp, sp', sp' + |s|, sp' + |s|, sp);
    JoinReads(m1, m2, sp', s);
  }

  lemma JoinReads(m1: seq<Segment>, m2: seq<Segment>, a: nat, s: Bytes)
    requires ReadSpec(m1, a, |s|) == Some(s) && ReadSpec(m2, a + |s|, 1) == Some([0])
    requires ChangesOnly(m1, m2, a + |s|, a + |s| + 1)
    ensures ReadSpec(m2, a, |s| + 1) == Some(s + [0])
  {
    hide ByteAt;
    ReadCongruence(m1, m2, a, |s|);
    var t := s + [0];
    var last := ReadSpec(m2, a + |s|, 1).value;
    assert last[0] == 0 && ByteAt(m2, (a + |s|) + 0) == Some(last[0]);
    forall k | 0 <= k < |t|
      ensures ByteAt(m2, a + k) == Some(t[k])
    {
      if k < |s| {
        assert ByteAt(m2, a + k) == Some(s[k]);
      }
    }
    ReadUnique(m2, a, t);
  }

  /** Strings in order, each below the one before. */
  method PushStrings(mem: MemoryManager, sp: uint64, strs: seq<Bytes>) returns (sp': uint64, ptrs: seq<uint64>)
    requires mem.Valid() && Below(mem.segments, sp, Size(strs))
    modifies mem
    ensures mem.Valid() && sp' == sp - Size(strs)
    ensures mem.State() == old(mem.State()).(segments := mem.segments)
    ensures SameShape(old(mem.segments), mem.segments)
    ensures ChangesOnly(old(mem.segments), mem.segments, sp', sp)
    ensures StringsAt(mem.segments, strs, ptrs, sp', sp)
    ensures forall i :: 0 <= i < |strs| ==> ptrs[i] == sp - Size(strs[..i + 1])
  {
    hide SameShape, ByteAt, ReadSpec, StringAt, Mapped;
    ghost var m0, all := mem.segments, Size(strs);
    NothingChanges(m0, sp);
    SameShapeSelf(m0);
    sp', ptrs := sp, [];
    var i := 0;
    while i < |strs|
      invariant 0 <= i <= |strs| && Size(strs[..i]) <= all && sp' == sp - Size(strs[..i])
      invariant mem.Valid()
      invariant mem.State() == old(mem.State()).(segments := mem.segments)
      invariant SameShape(m0, mem.segments)
      invariant ChangesOnly(m0, mem.segments, sp', sp)
      invariant StringsAt(mem.segments, strs[..i], ptrs, sp', sp)
      invariant forall j :: 0 <= j < i ==> ptrs[j] == sp - Size(strs[..j + 1])
    {
      ghost var m1, sp1, n := mem.segments, sp', |strs[i]| + 1;
      assert strs[..i + 1][..i] == strs[..i];
      SizePrefix(strs, i + 1);
      BelowAfter(m0, m1, sp, all, Size(strs[..i]), sp1, sp);
      BelowLess(m1, sp1, all - Size(strs[..i]), n);
      sp' := PushString(mem, sp', strs[i]);
      ChangesCompose(m0, m1, mem.segments, sp', sp, sp1, sp, sp', sp1);
      ShapeTransitive(m0, m1, mem.segments);
      StringsStay(m1, mem.segments, strs[..i], ptrs, sp1, sp, sp', sp1);
      StringsWiden(mem.segments, strs[..i], ptrs, sp1, sp, sp');
      StringWiden(mem.segments, strs[i], sp', sp', sp1, sp);
      ptrs := ptrs + [sp'];
      i := i + 1;
    }
    assert strs[..|strs|] == strs;
  }

  lemma {:induction false} SizePrefix(strs: seq<Bytes>, k: nat)
    requires k <= |strs|
    ensures Size(strs[..k]) <= Size(strs)
    decreases |strs|
  {
    if k < |strs| {
      var shorter := strs[..|strs| - 1];
      assert shorter[..k] == strs[..k];
      SizePrefix(shorter, k);
    } else {
      assert strs[..k] == strs;
    }
  }

  lemma BelowLess(m: seq<Segment>, sp: nat, n: nat, k: nat)
    requires Below(m, sp, n) && k <= n
    ensures Below(m, sp, k)
  {
    MappedPart(m, sp - n, n, sp - k, k);
  }

  lemma StringWiden(m: seq<Segment>, s: Bytes, p: uint64, lo: int, hi: int, hi': int)
    requires StringAt(m, s, p, lo, hi) && hi <= hi'
    ensures StringAt(m, s, p, lo, hi')
  {
    hide ReadSpec;
  }

  lemma StringsWiden(m: seq<Segment>, strs: seq<Bytes>, ptrs: seq<uint64>, lo: int, hi: int, lo': int)
    requires StringsAt(m, strs, ptrs, lo, hi) && lo' <= lo
    ensures StringsAt(m, strs, ptrs, lo', hi)
  {
    hide ReadSpec;
    forall i | 0 <= i < |strs|
      ensures StringAt(m, strs[i], ptrs[i], lo', hi)
    {
      assert StringAt(m, strs[i], ptrs[i], lo, hi);
    }
  }

  method PushWord(mem: MemoryManager, sp: uint64, v: uint64, ghost above: seq<uint64>) returns (sp': uint64)
    requires mem.Valid() && Below(mem.segments, sp, 8) && WordsAt(mem.segments, sp, above)
    modifies mem
    ensures mem.Valid() && sp' == sp - 8
    ensures mem.State() == old(mem.State()).(segments := mem.segments)
    ensures SameShape(old(mem.segments), mem.segments)
    ensures ChangesOnly(old(mem.segments), mem.segments, sp', sp)
    ensures WordsAt(mem.segments, sp', [v] + above)
  {
    hide SameShape, ByteAt, ReadSpec, WriteSpec, Mapped, WordsAt;
    ghost var m0 := mem.segments;
    sp' := PushBytes(mem, sp, Le(v, 8));
    WordsStay(m0, mem.segments, sp, above, sp', sp);
    LeRoundTrip64(v);
    WordsCons(mem.segments, sp', v, above);
  }

  lemma WordsCons(m: seq<Segment>, sp: nat, v: uint64, above: seq<uint64>)
    requires Read64(m, sp) == Some(v) && WordsAt(m, sp + 8, above)
    ensures WordsAt(m, sp, [v] + above)
  {
    hide Read64;
    var ws := [v] + above;
    forall i | 0 <= i < |ws|
      ensures Read64(m, sp + 8 * i) == Some(ws[i])
    {
      if i > 0 {
        assert Read64(m, (sp + 8) + 8 * (i - 1)) == Some(above[i - 1]);
        assert (sp + 8) + 8 * (i - 1) == sp + 8 * i;
      }
    }
  }

  /** Words last to first, so that they read upward in order. */
  method PushWords(mem: MemoryManager, sp: uint64, ws: seq<uint64>, ghost above: seq<uint64>) returns (sp': uint64)
    requires mem.Valid() && Below(mem.segments, sp, 8 * |ws|) && WordsAt(mem.segments, sp, above)
    modifies mem
    ensures mem.Valid() && sp' == sp - 8 * |ws|
    ensures mem.State() == old(mem.State()).(segments := mem.segments)
    ensures SameShape(old(mem.segments), mem.segments)
    ensures ChangesOnly(old(mem.segments), mem.segments, sp', sp)
    ensures WordsAt(mem.segments, sp', ws + above)
  {
    hide SameShape, ByteAt, ReadSpec, WriteSpec, Mapped, WordsAt;
    ghost var m0 := mem.segments;
    NothingChanges(m0, sp);
    SameShapeSelf(m0);
    sp' := sp;
    var i := |ws|;
    assert ws[i..] + above == above;
    while i > 0
      invariant 0 <= i <= |ws| && sp' == sp - 8 * (|ws| - i)
      invariant mem.Valid()
      invariant mem.State() == old(mem.State()).(segments := mem.segments)
      invariant SameShape(m0, mem.segments)
      invariant ChangesOnly(m0, mem.segments, sp', sp)
      invariant WordsAt(mem.segments, sp', ws[i..] + above)
    {
      ghost var m1, sp1 := mem.segments, sp';
      BelowAfter(m0, m1, sp, 8 * |ws|, 8 * (|ws| - i), sp1, sp);
      BelowLess(m1, sp1, 8 * i, 8);
      sp' := PushWord(mem, sp', ws[i - 1], ws[i..] + above);
      ChangesCompose(m0, m1, mem.segments, sp', sp, sp1, sp, sp', sp1);
      ShapeTransitive(m0, m1, mem.segments);
      assert ws[i - 1..] + above == [ws[i - 1]] + (ws[i..] + above);
      i := i - 1;
    }
    assert ws[0..] == ws;
  }

  /** Pairs last to first, the value of each above its key. */
  method PushPairs(mem: MemoryManager, sp: uint64, pairs: seq<(uint64, uint64)>) returns (sp': uint64)
    requires mem.Valid() && Below(mem.segments, sp, 16 * |pairs|)
    modifies mem
    ensures mem.Valid() && sp' == sp - 16 * |pairs|
    ensures mem.State() == old(mem.State()).(segments := mem.segments)
    ensures SameShape(old(mem.segments), mem.segments)
    ensures ChangesOnly(old(mem.segments), mem.segments, sp', sp)
    ensures WordsAt(mem.segments, sp', Flat(pairs))
  {
    hide SameShape, ByteAt, ReadSpec, WriteSpec, Mapped;
    ghost var m0 := mem.segments;
    NothingChanges(m0, sp);
    SameShapeSelf(m0);
    sp' := sp;
    var i := |pairs|;
    while i > 0
      invariant 0 <= i <= |pairs| && sp' == sp - 16 * (|pairs| - i)
      invariant mem.Valid()
      invariant mem.State() == old(mem.State()).(segments := mem.segments)
      invariant SameShape(m0, mem.segments)
      invariant ChangesOnly(m0, mem.segments, sp', sp)
      invariant WordsAt(mem.segments, sp', Flat(pairs[i..]))
    {
      ghost var m1, sp1, above := mem.segments, sp', Flat(pairs[i..]);
      BelowAfter(m0, m1, sp, 16 * |pairs|, 16 * (|pairs| - i), sp1, sp);
      BelowLess(m1, sp1, 16 * i, 16);
      var (key, val) := pairs[i - 1];
      sp' := PushWords(mem, sp', [key, val], above);
      ChangesCompose(m0, m1, mem.segments, sp', sp, sp1, sp, sp', sp1);
      ShapeTransitive(m0, m1, mem.segments);
      assert pairs[i - 1..][0] == (key, val) && pairs[i - 1..][1..] == pairs[i..];
      i := i - 1;
    }
    assert pairs[0..] == pairs;
  }

  // ---------- the whole image ----------

  datatype Image = Image(
    sp: uint64, argPtrs: seq<uint64>, envPtrs: seq<uint64>, platform: uint64, random: uint64)

  /** The words of the image, upward from the stack pointer. */
  function ImageWords(im: Image, info: ProgramInfo): seq<uint64>
    requires |im.argPtrs| < TWO64
  {
    [|im.argPtrs|] + (im.argPtrs + ([0] + (im.envPtrs + ([0] + Flat(Auxv(info, im.platform, im.random))))))
  }

  /** Everything the image promises a new program. */
  predicate ImageAt(m: seq<Segment>, args: seq<Bytes>, envs: seq<Bytes>, info: ProgramInfo, im: Image) {
    && |im.argPtrs| < TWO64
    && im.sp % 16 == 0
    && WordsAt(m, im.sp, ImageWords(im, info))
    && StringsAt(m, args, im.argPtrs, im.sp, STACK_START)
    && StringsAt(m, envs, im.envPtrs, im.sp, STACK_START)
    && ReadSpec(m, im.platform, |PLATFORM|) == Some(PLATFORM)
    && ReadSpec(m, im.random, |RANDOM|) == Some(RANDOM)
  }

  lemma FitsBounds(args: seq<Bytes>, envs: seq<Bytes>)
    requires Fits(args, envs)
    ensures 8 * |args| + 8 * |envs| <= STACK_SIZE - 0x1000
  {
  }

  /** The strings, platform name and random bytes, pushed in that order. */
  method PushData(mem: MemoryManager, sp: uint64, args: seq<Bytes>, envs: seq<Bytes>) returns (im: Image)
    requires mem.Valid() && Below(mem.segments, sp, Size(args) + Size(envs) + 24)
    modifies mem
    ensures mem.Valid() && im.sp == sp - (Size(args) + Size(envs) + 24)
    ensures im.platform == sp - (Size(args) + Size(envs) + 8) && im.random == im.sp
    ensures mem.State() == old(mem.State()).(segments := mem.segments)
    ensures SameShape(old(mem.segments), mem.segments)
    ensures ChangesOnly(old(mem.segments), mem.segments, im.sp, sp)
    ensures StringsAt(mem.segments, args, im.argPtrs, im.sp, sp) && StringsAt(mem.segments, envs, im.envPtrs, im.sp, sp)
    ensures im.sp <= im.platform && ReadSpec(mem.segments, im.platform, |PLATFORM|) == Some(PLATFORM)
    ensures im.sp <= im.random && ReadSpec(mem.segments, im.random, |RANDOM|) == Some(RANDOM)
  {
    hide SameShape, ByteAt, ReadSpec, StringsAt, Mapped, Size;
    ghost var m0, total := mem.segments, Size(args) + Size(envs) + 24;
    BelowLess(m0, sp, total, Size(args));
    var sp1, argPtrs := PushStrings(mem, sp, args);
    ghost var m1 := mem.segments;
    BelowAfter(m0, m1, sp, total, Size(args), sp1, sp);
    BelowLess(m1, sp1, Size(envs) + 24, Size(envs));
    var sp2, envPtrs := PushStrings(mem, sp1, envs);
    ghost var m2 := mem.segments;
    BelowAfter(m1, m2, sp1, Size(envs) + 24, Size(envs), sp2, sp1);
    BelowLess(m2, sp2, 24, 8);
    var sp3 := PushBytes(mem, sp2, PLATFORM);
    ghost var m3 := mem.segments;
    BelowAfter(m2, m3, sp2, 24, 8, sp3, sp2);
    var sp4 := PushBytes(mem, sp3, RANDOM);
    ghost var m4 := mem.segments;
    ShapeTransitive(m2, m3, m4);
    ShapeTransitive(m1, m2, m4);
    ShapeTransitive(m0, m1, m4);
    ChangesCompose(m2, m3, m4, sp4, sp2, sp3, sp2, sp4, sp3);
    ChangesCompose(m1, m2, m4, sp4, sp1, sp2, sp1, sp4, sp2);
    ChangesCompose(m0, m1, m4, sp4, sp, sp1, sp, sp4, sp1);
    StringsStay(m1, m4, args, argPtrs, sp1, sp, sp4, sp1);
    StringsWiden(m4, args, argPtrs, sp1, sp, sp4);
    StringsStay(m2, m4, envs, envPtrs, sp2, sp1, sp4, sp2);
    StringsWiden(m4, envs, envPtrs, sp2, sp1, sp4);
    StringsRaise(m4, envs, envPtrs, sp4, sp1, sp);
    ReadStays(m3, m4, sp4, sp3, sp3, |PLATFORM|);
    im := Image(sp4, argPtrs, envPtrs, sp3, sp4);
  }

  lemma StringsRaise(m: seq<Segment>, strs: seq<Bytes>, ptrs: seq<uint64>, lo: int, hi: int, hi': int)
    requires StringsAt(m, strs, ptrs, lo, hi) && hi <= hi'
    ensures StringsAt(m, strs, ptrs, lo, hi')
  {
    hide StringAt;
    forall i | 0 <= i < |strs|
      ensures StringAt(m, strs[i], ptrs[i], lo, hi')
    {
      StringWiden(m, strs[i], ptrs[i], lo, hi, hi');
    }
  }

  /** The vector below the data: auxiliary pairs, then environment and argument pointers, then the count. */
  method PushVector(mem: MemoryManager, sp: uint64, data: Image, info: ProgramInfo) returns (im: Image)
    requires mem.Valid() && |data.argPtrs| < TWO64
    requires Below(mem.segments, sp, 8 * WordCount(|data.argPtrs|, |data.envPtrs|))
    modifies mem
    ensures mem.Valid() && im == data.(sp := im.sp) && im.sp == sp - 8 * WordCount(|data.argPtrs|, |data.envPtrs|)
    ensures mem.State() == old(mem.State()).(segments := mem.segments)
    ensures SameShape(old(mem.segments), mem.segments)
    ensures ChangesOnly(old(mem.segments), mem.segments, im.sp, sp)
    ensures WordsAt(mem.segments, im.sp, ImageWords(im, info))
  {
    hide SameShape, ByteAt, ReadSpec, WordsAt, Mapped, Flat, Auxv;
    ghost var m0, total := mem.segments, 8 * WordCount(|data.argPtrs|, |data.envPtrs|);
    var aux := Auxv(info, data.platform, data.random);
    BelowLess(m0, sp, total, 288);
    var sp1 := PushPairs(mem, sp, aux);
    ghost var m1, w1 := mem.segments, Flat(aux);
    BelowAfter(m0, m1, sp, total, 288, sp1, sp);
    BelowLess(m1, sp1, total - 288, 8);
    var sp2 := PushWord(mem, sp1, 0, w1);
    ghost var m2, w2 := mem.segments, [0] + w1;
    ShapeTransitive(m0, m1, m2);
    ChangesCompose(m0, m1, m2, sp2, sp, sp1, sp, sp2, sp1);
    BelowAfter(m0, m2, sp, total, 296, sp2, sp);
    BelowLess(m2, sp2, total - 296, 8 * |data.envPtrs|);
    var sp3 := PushWords(mem, sp2, data.envPtrs, w2);
    ghost var m3, w3, n3 := mem.segments, data.envPtrs + w2, 296 + 8 * |data.envPtrs|;
    ShapeTransitive(m0, m2, m3);
    ChangesCompose(m0, m2, m3, sp3, sp, sp2, sp, sp3, sp2);
    BelowAfter(m0, m3, sp, total, n3, sp3, sp);
    BelowLess(m3, sp3, total - n3, 8);
    var sp4 := PushWord(mem, sp3, 0, w3);
    ghost var m4, w4 := mem.segments, [0] + w3;
    ShapeTransitive(m0, m3, m4);
    ChangesCompose(m0, m3, m4, sp4, sp, sp3, sp, sp4, sp3);
    BelowAfter(m0, m4, sp, total, n3 + 8, sp4, sp);
    BelowLess(m4, sp4, total - n3 - 8, 8 * |data.argPtrs|);
    var sp5 := PushWords(mem, sp4, data.argPtrs, w4);
    ghost var m5, w5 := mem.segments, data.argPtrs + w4;
    ShapeTransitive(m0, m4, m5);
    ChangesCompose(m0, m4, m5, sp5, sp, sp4, sp, sp5, sp4);
    BelowAfter(m0, m5, sp, total, total - 8, sp5, sp);
    var sp6 := PushWord(mem, sp5, |data.argPtrs|, w5);
    ShapeTransitive(m0, m5, mem.segments);
    ChangesCompose(m0, m5, mem.segments, sp6, sp, sp5, sp, sp6, sp5);
    im := data.(sp := sp6);
  }

  /**
   Builds the stack below its mapped top. For any argument and environment lists that fit, the result
   satisfies `ImageAt`: a 16-byte aligned stack pointer; upward from it the argument count, the argument
   pointers in order, 0, the environment pointers in order, 0 and the auxiliary pairs ending in (0, 0); and
   at every pointer its string, so that nothing pushed later overwrote it. Memory changes only in the stack.
   */
  method BuildStack(mem: MemoryManager, args: seq<Bytes>, envs: seq<Bytes>, info: ProgramInfo) returns (im: Image)
    requires mem.Valid() && Mapped(mem.segments, STACK_TOP - STACK_SIZE, STACK_SIZE) && Fits(args, envs)
    modifies mem
    ensures mem.Valid() && mem.State() == old(mem.State()).(segments := mem.segments)
    ensures SameShape(old(mem.segments), mem.segments)
    ensures ImageAt(mem.segments, args, envs, info, im)
    ensures im.random == 0x7fff_efff_f000 - (Size(args) + Size(envs) + 24) && im.platform == im.random + 16
    ensures var words := 39 + |args| + |envs|;
            im.sp == im.random - im.random % 16 - 8 * (words % 2) - 8 * words
    ensures 0x7fff_efe0_0000 <= im.sp && ChangesOnly(old(mem.segments), mem.segments, im.sp, 0x7fff_efff_f000)
  {
    hide SameShape, ByteAt, ReadSpec, WordsAt, Mapped, StringsAt, ImageWords, Size;
    ghost var m0, needed := mem.segments, Needed(args, envs);
    MappedPart(m0, STACK_TOP - STACK_SIZE, STACK_SIZE, STACK_START - needed, needed);
    var sp: uint64 := STACK_START;
    BelowLess(m0, sp, needed, Size(args) + Size(envs) + 24);
    var data := PushData(mem, sp, args, envs);
    ghost var m1 := mem.segments;
    PointerCounts(m1, args, envs, data, STACK_START);
    sp := data.sp - data.sp % 16;
    var words := WordCount(|args|, |envs|);
    if words % 2 != 0 {
      sp := sp - 8;
    }
    BelowAfter(m0, m1, STACK_START, needed, STACK_START - sp, data.sp, STACK_START);
    BelowLess(m1, sp, needed - (STACK_START - sp), 8 * words);
    im := PushVector(mem, sp, data, info);
    ghost var m2 := mem.segments;
    ShapeTransitive(m0, m1, m2);
    ChangesCompose(m0, m1, m2, im.sp, STACK_START, data.sp, STACK_START, im.sp, sp);
    StringsStay(m1, m2, args, data.argPtrs, data.sp, STACK_START, im.sp, sp);
    StringsWiden(m2, args, data.argPtrs, data.sp, STACK_START, im.sp);
    StringsStay(m1, m2, envs, data.envPtrs, data.sp, STACK_START, im.sp, sp);
    StringsWiden(m2, envs, data.envPtrs, data.sp, STACK_START, im.sp);
    ReadStays(m1, m2, im.sp, sp, data.platform, |PLATFORM|);
    ReadStays(m1, m2, im.sp, sp, data.random, |RANDOM|);
    Aligned(sp, words);
  }

  lemma PointerCounts(m: seq<Segment>, args: seq<Bytes>, envs: seq<Bytes>, im: Image, hi: int)
    requires StringsAt(m, args, im.argPtrs, im.sp, hi) && StringsAt(m, envs, im.envPtrs, im.sp, hi) && Fits(args, envs)
    ensures |im.argPtrs| == |args| < TWO64 && |im.envPtrs| == |envs|
  {
    hide StringAt;
    FitsBounds(args, envs);
  }

  lemma Aligned(sp: nat, words: nat)
    requires if words % 2 == 0 then sp % 16 == 0 else sp % 16 == 8
    ensures (sp - 8 * words) % 16 == 0
  {
  }

  /** In a finished image, reading the string at any pointer of a NUL-free argument gives that argument. */
  lemma ImageStrings(m: seq<Segment>, args: seq<Bytes>, envs: seq<Bytes>, info: ProgramInfo, im: Image)
    requires ImageAt(m, args, envs, info, im)
    ensures forall i :: 0 <= i < |args| && 0 !in args[i] ==> ReadStringSpec(m, im.argPtrs[i]) == Some(args[i])
    ensures forall i :: 0 <= i < |envs| && 0 !in envs[i] ==> ReadStringSpec(m, im.envPtrs[i]) == Some(envs[i])
  {
    hide ReadSpec, WordsAt, ImageWords;
    forall i | 0 <= i < |args| && 0 !in args[i]
      ensures ReadStringSpec(m, im.argPtrs[i]) == Some(args[i])
    {
      assert StringAt(m, args[i], im.argPtrs[i], im.sp, STACK_START);
      ReadStringExact(m, im.argPtrs[i], args[i]);
    }
    forall i | 0 <= i < |envs| && 0 !in envs[i]
      ensures ReadStringSpec(m, im.envPtrs[i]) == Some(envs[i])
    {
      assert StringAt(m, envs[i], im.envPtrs[i], im.sp, STACK_START);
      ReadStringExact(m, im.envPtrs[i], envs[i]);
    }
  }

  /** The words of a finished image, by position. */
  lemma ImageVector(m: seq<Segment>, args: seq<Bytes>, envs: seq<Bytes>, info: ProgramInfo, im: Image)
    requires ImageAt(m, args, envs, info, im)
    ensures Read64(m, im.sp) == Some(|args|)
    ensures forall i :: 0 <= i < |args| ==> Read64(m, im.sp + 8 * (1 + i)) == Some(im.argPtrs[i])
    ensures Read64(m, im.sp + 8 * (1 + |args|)) == Some(0)
    ensures forall i :: 0 <= i < |envs| ==> Read64(m, im.sp + 8 * (2 + |args| + i)) == Some(im.envPtrs[i])
    ensures Read64(m, im.sp + 8 * (2 + |args| + |envs|)) == Some(0)
    ensures forall i :: 0 <= i < 18 ==>
              && Read64(m, im.sp + 8 * (3 + |args| + |envs| + 2 * i)) == Some(Auxv(info, im.platform, im.random)[i].0)
              && Read64(m, im.sp + 8 * (3 + |args| + |envs| + 2 * i + 1)) == Some(Auxv(info, im.platform, im.random)[i].1)
  {
    hide Read64, StringAt, Auxv, Flat, ReadSpec;
    var ws, aux := ImageWords(im, info), Auxv(info, im.platform, im.random);
    FlatAt(aux);
    var n, e := |args|, |envs|;
    assert ws[0] == n && ws[1 + n] == 0 && ws[2 + n + e] == 0;
    forall i | 0 <= i < n ensures Read64(m, im.sp + 8 * (1 + i)) == Some(im.argPtrs[i]) { assert ws[1 + i] == im.argPtrs[i]; }
    forall i | 0 <= i < e ensures Read64(m, im.sp + 8 * (2 + n + i)) == Some(im.envPtrs[i]) {
      assert ws[2 + n + i] == im.envPtrs[i];
    }
    forall i | 0 <= i < 18
      ensures Read64(m, im.sp + 8 * (3 + n + e + 2 * i)) == Some(aux[i].0)
      ensures Read64(m, im.sp + 8 * (3 + n + e + 2 * i + 1)) == Some(aux[i].1)
    {
      assert ws[3 + n + e + 2 * i] == Flat(aux)[2 * i] && ws[3 + n + e + 2 * i + 1] == Flat(aux)[2 * i + 1];
    }
  }

  /** Pair `i` of a vector of key and value words that starts at `at`. */
  predicate PairAt(m: seq<Segment>, at: nat, i: nat, key: uint64, val: uint64) {
    Read64(m, at + 16 * i) == Some(key) && Read64(m, at + 16 * i + 8) == Some(val)
  }

  /**
   The auxiliary vector of a finished image, key by key: 3 comes with the program headers' address, 4 with the
   size of one and 5 with their number, 6 with the page size, 9 with the entry point and 17 with the clock
   rate; 15 and 25 come with the addresses of the platform name and the random bytes; all others come with 0,
   the key 0 last. No key occurs twice.
   */
  lemma AuxiliaryValues(m: seq<Segment>, args: seq<Bytes>, envs: seq<Bytes>, info: ProgramInfo, im: Image)
    requires ImageAt(m, args, envs, info, im)
    ensures var at := im.sp + 8 * (3 + |args| + |envs|);
            && PairAt(m, at, 0, 3, info.phdr) && PairAt(m, at, 1, 4, info.phentsize) && PairAt(m, at, 2, 5, info.phnum)
            && PairAt(m, at, 3, 6, 4096) && PairAt(m, at, 4, 7, 0) && PairAt(m, at, 5, 8, 0)
            && PairAt(m, at, 6, 9, info.entry) && PairAt(m, at, 7, 11, 0) && PairAt(m, at, 8, 12, 0)
            && PairAt(m, at, 9, 13, 0) && PairAt(m, at, 10, 14, 0) && PairAt(m, at, 11, 15, im.platform)
            && PairAt(m, at, 12, 16, 0) && PairAt(m, at, 13, 17, 100) && PairAt(m, at, 14, 23, 0)
            && PairAt(m, at, 15, 25, im.random) && PairAt(m, at, 16, 26, 0) && PairAt(m, at, 17, 0, 0)
            && forall i, j :: 0 <= i < j < 18 ==> Read64(m, at + 16 * i) != Read64(m, at + 16 * j)
  {
    hide Read64, ImageAt;
    var at, aux := im.sp + 8 * (3 + |args| + |envs|), Auxv(info, im.platform, im.random);
    ImagePairs(m, args, envs, info, im);
    KeysDiffer(info, im.platform, im.random);
    assert aux[0].0 == 3 && aux[1].0 == 4 && aux[2].0 == 5 && aux[3].0 == 6 && aux[4].0 == 7 && aux[5].0 == 8;
    assert aux[6].0 == 9 && aux[7].0 == 11 && aux[8].0 == 12 && aux[9].0 == 13 && aux[10].0 == 14 && aux[11].0 == 15;
    assert aux[12].0 == 16 && aux[13].0 == 17 && aux[14].0 == 23 && aux[15].0 == 25 && aux[16].0 == 26 && aux[17].0 == 0;
  }

  lemma ImagePairs(m: seq<Segment>, args: seq<Bytes>, envs: seq<Bytes>, info: ProgramInfo, im: Image)
    requires ImageAt(m, args, envs, info, im)
    ensures var aux := Auxv(info, im.platform, im.random);
            forall i :: 0 <= i < 18 ==> PairAt(m, im.sp + 8 * (3 + |args| + |envs|), i, aux[i].0, aux[i].1)
  {
    hide Read64, ImageAt, Auxv;
    var at, aux := im.sp + 8 * (3 + |args| + |envs|), Auxv(info, im.platform, im.random);
    ImageVector(m, args, envs, info, im);
    forall i | 0 <= i < 18
      ensures PairAt(m, at, i, aux[i].0, aux[i].1)
    {
      assert im.sp + 8 * (3 + |args| + |envs| + 2 * i) == at + 16 * i;
      assert im.sp + 8 * (3 + |args| + |envs| + 2 * i + 1) == at + 16 * i + 8;
    }
  }

  /** At the address of key 15 the bytes are those of "aarch64" and a NUL; at that of key 25 they are sixteen times 0x42. */
  lemma AuxiliaryData(m: seq<Segment>, args: seq<Bytes>, envs: seq<Bytes>, info: ProgramInfo, im: Image)
    requires ImageAt(m, args, envs, info, im)
    ensures ReadSpec(m, im.platform, 8) == Some([97, 97, 114, 99, 104, 54, 52, 0])
    ensures ReadStringSpec(m, im.platform) == Some([97, 97, 114, 99, 104, 54, 52])
    ensures forall x: nat :: im.random <= x < im.random + 16 ==> ByteAt(m, x) == Some(0x42)
  {
    hide Read64, ByteAt, ReadSpec, StringsAt, WordsAt, ImageWords, ReadStringSpec;
    assert PLATFORM == [97, 97, 114, 99, 104, 54, 52] + [0];
    ReadStringExact(m, im.platform, [97, 97, 114, 99, 104, 54, 52]);
    ReadBytes(m, im.random, RANDOM);
    forall x: nat | im.random <= x < im.random + 16
      ensures ByteAt(m, x) == Some(0x42)
    {
      assert ByteAt(m, im.random + (x - im.random)) == Some(RANDOM[x - im.random]);
    }
  }

  lemma KeysDiffer(info: ProgramInfo, platform: uint64, random: uint64)
    ensures forall i, j :: 0 <= i < j < 18 ==> Auxv(info, platform, random)[i].0 != Auxv(info, platform, random)[j].0
  {
  }

  lemma ReadBytes(m: seq<Segment>, a: nat, d: Bytes)
    requires ReadSpec(m, a, |d|) == Some(d)
    ensures forall k :: 0 <= k < |d| ==> ByteAt(m, a + k) == Some(d[k])
  {
    hide ByteAt;
  }

  lemma {:induction false} FlatAt(pairs: seq<(uint64, uint64)>)
    ensures forall i :: 0 <= i < |pairs| ==> Flat(pairs)[2 * i] == pairs[i].0 && Flat(pairs)[2 * i + 1] == pairs[i].1
    decreases |pairs|
  {
    if pairs != [] {
      FlatAt(pairs[1..]);
      forall i | 0 <= i < |pairs|
        ensures Flat(pairs)[2 * i] == pairs[i].0 && Flat(pairs)[2 * i + 1] == pairs[i].1
      {
        if i > 0 {
          assert Flat(pairs)[2 * i] == Flat(pairs[1..])[2 * (i - 1)] && pairs[i] == pairs[1..][i - 1];
          assert Flat(pairs)[2 * i + 1] == Flat(pairs[1..])[2 * (i - 1) + 1];
        }
      }
    }
  }
}
