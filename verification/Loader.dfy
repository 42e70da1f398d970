/** Loading a whole program: what memory holds when every stage of the loader has run. */
module Loader {
  import opened Words
  import opened Memory
  import opened Footprint
  import opened Segments
  import opened Trampolines
  import Heap
  import Relr
  import StackImage

  const STACK_BASE: nat := 0x7fff_efe0_0000

  /** What the stages take from the file and the command line; `sections` are the packed relocation sections. */
  datatype Program = Program(
    image: seq<ElfSegment>, bias: uint64, relocs: seq<Reloc>, sections: seq<seq<uint64>>,
    args: seq<StackImage.Bytes>, envs: seq<StackImage.Bytes>, info: StackImage.ProgramInfo)

  /** The host's answers to the mapping requests. */
  datatype Hosts = Hosts(image: seq<HostMap>, fixed1: HostMap, fixed2: HostMap, stack: HostMap)

  /** The segments lie apart below the fixed pages, no address wraps, and the strings fit the stack. */
  predicate Loadable(p: Program, h: Hosts) {
    && |h.image| == |p.image| && Placeable([], p.image, p.bias)
    && (forall i :: 0 <= i < |p.image| && p.image[i].size > 0 ==>
          |p.image[i].data| <= p.image[i].size && p.image[i].PageEnd(p.bias) <= FIXED)
    && TRAMPOLINES + 8 * |p.relocs| < TWO64
    && (forall k :: 0 <= k < |p.sections| ==> InRange(p.sections[k], p.bias))
    && StackImage.Fits(p.args, p.envs)
  }

  predicate InRange(entries: seq<uint64>, bias: uint64) {
    forall a :: a in Relr.Listed(entries, 0) ==> a + bias < TWO64
  }

  // ---------- the stages on the segment list ----------

  /** Image and fixed pages, as the relocations find them. */
  function Unlinked(m: Mem, p: Program, h: Hosts): seq<Segment>
    requires Loadable(p, h)
  {
    WithDefaults(WithFixed(LoadAll(m, p.image, p.bias, h.image, 0).mem, h.fixed1, h.fixed2).segments)
  }

  function Packed(segs: seq<Segment>, sections: seq<seq<uint64>>, bias: uint64): seq<Segment>
    decreases |sections|
  {
    if sections == [] then segs
    else Packed(Relr.Relocate(segs, Relr.Listed(sections[0], 0), bias), sections[1..], bias)
  }

  /** After the symbol relocations and then the packed ones. */
  function Linked(segs: seq<Segment>, p: Program): seq<Segment> {
    Packed(Stored(segs, EMPTY, p.relocs, p.bias), p.sections, p.bias)
  }

  // ---------- which bytes the relocations write ----------

  predicate InSlot(p: Program, i: nat, x: nat) {
    i < |p.relocs| && Target(p.relocs[i], p.bias) <= x < Target(p.relocs[i], p.bias) + 8
  }

  predicate InPacked(sections: seq<seq<uint64>>, bias: uint64, k: nat, a: nat, x: nat) {
    k < |sections| && Relr.Prescribed(sections[k], 0, a) && a + bias <= x < a + bias + 8
  }

  ghost predicate SlotFree(p: Program, x: nat) { forall i: nat :: !InSlot(p, i, x) }

  ghost predicate PackedFree(sections: seq<seq<uint64>>, bias: uint64, x: nat) {
    forall k: nat, a: nat :: !InPacked(sections, bias, k, a, x)
  }

  /** No word that one section prescribes contains the byte at `x`. */
  ghost predicate SectionFree(entries: seq<uint64>, bias: uint64, x: nat) {
    forall a: nat :: Relr.Prescribed(entries, 0, a) ==> !(a + bias <= x < a + bias + 8)
  }

  predicate AllForward(sections: seq<seq<uint64>>) {
    forall k :: 0 <= k < |sections| ==> Relr.Forward(sections[k], 0)
  }

  lemma {:induction false} StoredElsewhere(m: seq<Segment>, t: Tables, relocs: seq<Reloc>, bias: uint64, x: nat)
    requires forall i :: 0 <= i < |relocs| ==> !(Target(relocs[i], bias) <= x < Target(relocs[i], bias) + 8)
    ensures ByteAt(Stored(m, t, relocs, bias), x) == ByteAt(m, x)
    decreases |relocs|
  {
    hide ByteAt, WriteSpec, Value, Bind;
    if relocs != [] {
      var r, t1 := relocs[0], Bind(t, relocs[0]);
      var d := Le(Value(t1, r, bias), 8);
      WriteExact(m, Target(r, bias), d);
      assert forall i :: 0 <= i < |relocs[1..]| ==> relocs[1..][i] == relocs[i + 1];
      StoredElsewhere(WriteSpec(m, Target(r, bias), d).segments, t1, relocs[1..], bias, x);
    }
  }

  lemma FirstSection(sections: seq<seq<uint64>>, bias: uint64, x: nat)
    requires sections != [] && PackedFree(sections, bias, x)
    ensures PackedFree(sections[1..], bias, x)
    ensures SectionFree(sections[0], bias, x)
  {
    forall k: nat, a: nat
      ensures !InPacked(sections[1..], bias, k, a, x)
    {
      assert !InPacked(sections, bias, k + 1, a, x);
    }
    forall a: nat | Relr.Prescribed(sections[0], 0, a)
      ensures !(a + bias <= x < a + bias + 8)
    {
      assert !InPacked(sections, bias, 0, a, x);
    }
  }

  lemma OneSection(segs: seq<Segment>, entries: seq<uint64>, bias: uint64, x: nat)
    requires Relr.Forward(entries, 0) && SectionFree(entries, bias, x)
    ensures ByteAt(Relr.Relocate(segs, Relr.Listed(entries, 0), bias), x) == ByteAt(segs, x)
  {
    hide ByteAt, Relr.Listed, Relr.Relocate, Relr.Prescribed, Relr.Forward, Read64;
    Relr.SectionRelocates(segs, entries, bias);
    forall a: nat | Relr.Prescribed(entries, 0, a)
      ensures !Relr.InWord(segs, a, bias, x)
    {
    }
  }

  lemma {:induction false} PackedElsewhere(segs: seq<Segment>, sections: seq<seq<uint64>>, bias: uint64, x: nat)
    requires AllForward(sections) && PackedFree(sections, bias, x)
    ensures ByteAt(Packed(segs, sections, bias), x) == ByteAt(segs, x)
    decreases |sections|
  {
    hide ByteAt, Relr.Listed, Relr.Relocate, PackedFree, SectionFree;
    if sections != [] {
      FirstSection(sections, bias, x);
      OneSection(segs, sections[0], bias, x);
      PackedElsewhere(Relr.Relocate(segs, Relr.Listed(sections[0], 0), bias), sections[1..], bias, x);
    }
  }

  /** A word none of whose bytes a later section writes is what it was. */
  lemma PackedWordKept(segs: seq<Segment>, sections: seq<seq<uint64>>, bias: uint64, w: nat)
    requires AllForward(sections) && forall x: nat :: w <= x < w + 8 ==> PackedFree(sections, bias, x)
    ensures Read64(Packed(segs, sections, bias), w) == Read64(segs, w)
  {
    hide ByteAt, Packed, PackedFree;
    forall x: nat | w <= x < w + 8
      ensures ByteAt(Packed(segs, sections, bias), x) == ByteAt(segs, x)
    {
      PackedElsewhere(segs, sections, bias, x);
    }
    ReadCongruence(segs, Packed(segs, sections, bias), w, 8);
  }

  /** No other section writes into the word that section `k` prescribes at `a`. */
  ghost predicate OwnWord(sections: seq<seq<uint64>>, bias: uint64, k: nat, a: nat) {
    forall j: nat, b: nat, x: nat :: j != k && a + bias <= x < a + bias + 8 ==> !InPacked(sections, bias, j, b, x)
  }

  lemma OwnWordRest(sections: seq<seq<uint64>>, bias: uint64, k: nat, a: nat)
    requires k < |sections| && OwnWord(sections, bias, k, a)
    ensures k > 0 ==> OwnWord(sections[1..], bias, k - 1, a)
    ensures k > 0 ==> forall x: nat :: a + bias <= x < a + bias + 8 ==> SectionFree(sections[0], bias, x)
    ensures k == 0 ==> forall x: nat :: a + bias <= x < a + bias + 8 ==> PackedFree(sections[1..], bias, x)
  {
    hide Relr.Prescribed;
    if k > 0 {
      forall j: nat, b: nat, x: nat | j != k - 1 && a + bias <= x < a + bias + 8
        ensures !InPacked(sections[1..], bias, j, b, x)
      {
        assert !InPacked(sections, bias, j + 1, b, x);
      }
      forall x: nat | a + bias <= x < a + bias + 8
        ensures SectionFree(sections[0], bias, x)
      {
        forall b: nat | Relr.Prescribed(sections[0], 0, b)
          ensures !(b + bias <= x < b + bias + 8)
        {
          assert !InPacked(sections, bias, 0, b, x);
        }
      }
    } else {
      forall x: nat, j: nat, b: nat | a + bias <= x < a + bias + 8
        ensures !InPacked(sections[1..], bias, j, b, x)
      {
        assert !InPacked(sections, bias, j + 1, b, x);
      }
    }
  }

  /** Each prescribed word that is its section's own gains the bias once, whatever sections come before and after. */
  lemma {:induction false} PackedWord(segs: seq<Segment>, sections: seq<seq<uint64>>, bias: uint64, k: nat, a: nat)
    requires AllForward(sections) && k < |sections| && Relr.Prescribed(sections[k], 0, a) && OwnWord(sections, bias, k, a)
    ensures var v := Read64(segs, a + bias);
            Read64(Packed(segs, sections, bias), a + bias) == if v.Some? then Some((v.value + bias) % TWO64) else None
    decreases |sections|
  {
    hide ByteAt, Read64, Relr.Listed, Relr.Relocate, Relr.Prescribed, OwnWord, PackedFree, SectionFree, Relr.Forward;
    var first, rest := Relr.Relocate(segs, Relr.Listed(sections[0], 0), bias), sections[1..];
    OwnWordRest(sections, bias, k, a);
    Relr.SectionRelocates(segs, sections[0], bias);
    if k == 0 {
      PackedWordKept(first, rest, bias, a + bias);
    } else {
      assert rest[k - 1] == sections[k];
      forall x: nat | a + bias <= x < a + bias + 8
        ensures ByteAt(first, x) == ByteAt(segs, x)
      {
        OneSection(segs, sections[0], bias, x);
      }
      SameWord(segs, first, a + bias);
      PackedWord(first, rest, bias, k - 1, a);
    }
  }

  lemma SameWord(m: seq<Segment>, m': seq<Segment>, w: nat)
    requires forall x: nat :: w <= x < w + 8 ==> ByteAt(m', x) == ByteAt(m, x)
    ensures Read64(m', w) == Read64(m, w)
  {
    hide ByteAt;
    ReadCongruence(m, m', w, 8);
  }

  // ---------- what linking leaves ----------

  /** A byte that no relocation writes is what it was. */
  lemma LinkedElsewhere(segs: seq<Segment>, p: Program, x: nat)
    requires AllForward(p.sections) && SlotFree(p, x) && PackedFree(p.sections, p.bias, x)
    ensures ByteAt(Linked(segs, p), x) == ByteAt(segs, x)
  {
    hide ByteAt, Stored, Packed, PackedFree;
    forall i | 0 <= i < |p.relocs|
      ensures !(Target(p.relocs[i], p.bias) <= x < Target(p.relocs[i], p.bias) + 8)
    {
      assert !InSlot(p, i, x);
    }
    StoredElsewhere(segs, EMPTY, p.relocs, p.bias, x);
    PackedElsewhere(Stored(segs, EMPTY, p.relocs, p.bias), p.sections, p.bias, x);
  }

  /** A mapped slot apart from the other slots and from every packed word ends with the word of its symbol. */
  lemma LinkedSlot(segs: seq<Segment>, p: Program, i: nat)
    requires AllForward(p.sections) && SlotReady(segs, p.relocs, p.bias, i)
    requires forall x: nat :: InSlot(p, i, x) ==> PackedFree(p.sections, p.bias, x)
    ensures Read64(Linked(segs, p), Target(p.relocs[i], p.bias)) == FinalWord(segs, p.relocs, p.bias, i)
  {
    hide Stored, Packed, PackedFree, Read64, SlotApart, Mapped;
    PackedWordKept(Stored(segs, EMPTY, p.relocs, p.bias), p.sections, p.bias, Target(p.relocs[i], p.bias));
  }

  /** A packed word that no slot and no other section writes gains the load bias exactly once. */
  lemma LinkedWord(segs: seq<Segment>, p: Program, k: nat, a: nat)
    requires AllForward(p.sections) && k < |p.sections| && Relr.Prescribed(p.sections[k], 0, a)
    requires OwnWord(p.sections, p.bias, k, a)
    requires forall x: nat :: a + p.bias <= x < a + p.bias + 8 ==> SlotFree(p, x)
    ensures var v := Read64(segs, a + p.bias);
            Read64(Linked(segs, p), a + p.bias) == if v.Some? then Some((v.value + p.bias) % TWO64) else None
  {
    hide ByteAt, Stored, Packed, OwnWord, Read64, Relr.Prescribed;
    var bound := Stored(segs, EMPTY, p.relocs, p.bias);
    forall x: nat | a + p.bias <= x < a + p.bias + 8
      ensures ByteAt(bound, x) == ByteAt(segs, x)
    {
      forall i | 0 <= i < |p.relocs|
        ensures !(Target(p.relocs[i], p.bias) <= x < Target(p.relocs[i], p.bias) + 8)
      {
        assert SlotFree(p, x) && !InSlot(p, i, x);
      }
      StoredElsewhere(segs, EMPTY, p.relocs, p.bias, x);
    }
    SameWord(segs, bound, a + p.bias);
    PackedWord(bound, p.sections, p.bias, k, a);
  }

  // ---------- the ranges stay ----------

  lemma {:induction false} StoredShape(m: seq<Segment>, t: Tables, relocs: seq<Reloc>, bias: uint64)
    ensures SameShape(m, Stored(m, t, relocs, bias))
    decreases |relocs|
  {
    hide WriteSpec, Value, Bind, SameShape;
    if relocs == [] {
      StackImage.SameShapeSelf(m);
    } else {
      var t1 := Bind(t, relocs[0]);
      var d := Le(Value(t1, relocs[0], bias), 8);
      var m1 := WriteSpec(m, Target(relocs[0], bias), d).segments;
      WriteKeepsShape(m, Target(relocs[0], bias), d);
      StoredShape(m1, t1, relocs[1..], bias);
      ShapeTransitive(m, m1, Stored(m, t, relocs, bias));
    }
  }

  lemma {:induction false} RelocateShape(m: seq<Segment>, addrs: seq<nat>, bias: uint64)
    ensures SameShape(m, Relr.Relocate(m, addrs, bias))
    decreases |addrs|
  {
    hide WriteSpec, SameShape, Read64;
    StackImage.SameShapeSelf(m);
    if addrs != [] {
      var v, m1 := Read64(m, addrs[0] + bias), Relr.RelocateWord(m, addrs[0], bias);
      if v.Some? {
        WriteKeepsShape(m, addrs[0] + bias, Le(Wrap64(v.value + bias), 8));
      }
      RelocateShape(m1, addrs[1..], bias);
      ShapeTransitive(m, m1, Relr.Relocate(m, addrs, bias));
    }
  }

  lemma {:induction false} PackedShape(segs: seq<Segment>, sections: seq<seq<uint64>>, bias: uint64)
    ensures SameShape(segs, Packed(segs, sections, bias))
    decreases |sections|
  {
    hide SameShape, Relr.Relocate, Relr.Listed;
    if sections == [] {
      StackImage.SameShapeSelf(segs);
    } else {
      var first := Relr.Relocate(segs, Relr.Listed(sections[0], 0), bias);
      RelocateShape(segs, Relr.Listed(sections[0], 0), bias);
      PackedShape(first, sections[1..], bias);
      ShapeTransitive(segs, first, Packed(segs, sections, bias));
    }
  }

  // ---------- before the relocations ----------

  /** The host grants every mapping of the image that is asked for. */
  predicate ImageGranted(p: Program, h: Hosts)
    requires Loadable(p, h)
  {
    forall i :: 0 <= i < |p.image| && p.image[i].size > 0 ==> h.image[i].Granted?
  }

  lemma {:induction false} SuccessGranted(m: Mem, image: seq<ElfSegment>, bias: uint64, hosts: seq<HostMap>, max: nat)
    requires |hosts| == |image| && forall i :: 0 <= i < |image| ==> Placed(image[i], bias)
    requires LoadAll(m, image, bias, hosts, max).maxVaddr.Some?
    ensures forall i :: 0 <= i < |image| && image[i].size > 0 ==> hosts[i].Granted?
    decreases |image|
  {
    hide Fill, ElfSegment.PageSize, ElfSegment.PageStart, AlignDownPage;
    if image != [] {
      var one := LoadOne(m, image[0], bias, hosts[0]);
      assert forall i :: 1 <= i < |image| ==> image[i] == image[1..][i - 1] && hosts[i] == hosts[1..][i - 1];
      SuccessGranted(one.mem, image[1..], bias, hosts[1..], Larger(max, EndOf(image[0], bias)));
    }
  }

  /** The image is in place, below the fixed pages. */
  lemma ImagePlaced(m: Mem, p: Program, h: Hosts)
    requires Loadable(p, h) && m.segments == []
    ensures var r := LoadAll(m, p.image, p.bias, h.image, 0);
            && (r.maxVaddr.Some? <==> ImageGranted(p, h))
            && (r.maxVaddr.Some? ==>
                  && r.maxVaddr.value <= AlignUpPage(r.maxVaddr.value) <= FIXED
                  && r.mem == m.(segments := r.mem.segments) && Disjoint(r.mem.segments)
                  && (forall i :: 0 <= i < |r.mem.segments| ==> r.mem.segments[i].End() <= AlignUpPage(r.maxVaddr.value))
                  && (forall i :: 0 <= i < |p.image| ==> EndOf(p.image[i], p.bias) <= r.maxVaddr.value)
                  && ImageReads(r.mem.segments, p.image, p.bias))
  {
    hide LoadAll, ImageReads, Disjoint, AlignDownPage, AlignUpPage, ElfSegment.PageSize, ByteAt;
    var r := LoadAll(m, p.image, p.bias, h.image, 0);
    if r.maxVaddr.Some? {
      SuccessGranted(m, p.image, p.bias, h.image, 0);
    }
    if ImageGranted(p, h) {
      ImageLoads(m, p.image, p.bias, h.image, 0);
      HighestEnd(m, p.image, p.bias, h.image, 0);
      Heap.AlignUpProperties(r.maxVaddr.value);
      Heap.AlignUpProperties(0);
      forall i | 0 <= i < |p.image| && p.image[i].size > 0
        ensures AlignUpPage(p.image[i].address + p.bias + p.image[i].size) <= FIXED
      {
        PageEndIsAligned(p.image[i], p.bias);
      }
    }
  }

  /** The fixed mappings and their stores leave lower addresses alone, whether the host grants them or not. */
  lemma FixedAbove(m: Mem, h1: HostMap, h2: HostMap)
    requires Disjoint(m.segments) && forall i :: 0 <= i < |m.segments| ==> m.segments[i].End() <= FIXED
    ensures var segs := WithDefaults(WithFixed(m, h1, h2).segments);
            && SameShape(WithFixed(m, h1, h2).segments, segs) && Disjoint(segs)
            && (forall i :: 0 <= i < |segs| ==> segs[i].End() <= 0x7f03_0000)
            && (forall x: nat :: x < FIXED ==> ByteAt(segs, x) == ByteAt(m.segments, x))
  {
    hide ByteAt, WriteSpec, Disjoint, Le;
    var fixed := WithFixed(m, h1, h2).segments;
    FirstApart(m, h1);
    FixedEnds(m, h1, h2);
    Heap.MapExact(m, FIXED, 0x2_0000, h1);
    Heap.MapExact(MapSpec(m, FIXED, 0x2_0000, h1).mem, FIXED + 0x2_0000, 0x1_0000, h2);
    hide WithFixed, MapSpec;
    var one := WriteSpec(fixed, 0x7f01_0300, Le(1, 4)).segments;
    WriteExact(fixed, 0x7f01_0300, Le(1, 4));
    WriteExact(one, 0x7f01_0310, Le(1, 4));
    WriteKeepsShape(fixed, 0x7f01_0300, Le(1, 4));
    WriteKeepsShape(one, 0x7f01_0310, Le(1, 4));
    ShapeTransitive(fixed, one, WithDefaults(fixed));
  }

  lemma FixedEnds(m: Mem, h1: HostMap, h2: HostMap)
    requires Disjoint(m.segments) && forall i :: 0 <= i < |m.segments| ==> m.segments[i].End() <= FIXED
    ensures var segs := WithFixed(m, h1, h2).segments;
            Disjoint(segs) && forall i :: 0 <= i < |segs| ==> segs[i].End() <= 0x7f03_0000
  {
    FixedApart(m, h1, h2);
  }

  // ---------- the finished program ----------

  /** Where the program starts from: its stack, and the thunks that its trampolines stand for. */
  datatype Started = Started(stack: StackImage.Image, thunks: seq<(uint64, string)>)

  function StackSegment(): Segment { Mapping(STACK_BASE, Zeros(0x20_0000)) }

  /** `m` is what the loader leaves of the fresh memory `m0`: below the stack, the linked image; in the stack, its image. */
  ghost predicate Finished(m0: Mem, p: Program, h: Hosts, m: Mem, s: Started)
    requires Loadable(p, h)
  {
    var linked, max := Linked(Unlinked(m0, p, h), p), LoadAll(m0, p.image, p.bias, h.image, 0).maxVaddr;
    && max.Some? && AlignUpPage(max.value) < TWO64
    && m == SetBrkBaseSpec(m0, max.value).(segments := m.segments)
    && SameShape(linked + [StackSegment()], m.segments)
    && (forall x: nat :: x < STACK_BASE ==> ByteAt(m.segments, x) == ByteAt(linked, x))
    && StackImage.ImageAt(m.segments, p.args, p.envs, p.info, s.stack)
    && s.thunks == BindAll(EMPTY, p.relocs).thunks
  }

  lemma StackApart(segs: seq<Segment>, shaped: seq<Segment>)
    requires SameShape(segs, shaped) && Disjoint(segs) && forall i :: 0 <= i < |segs| ==> segs[i].End() <= 0x7f03_0000
    ensures Disjoint(shaped) && Disjoint(shaped + [StackSegment()])
    ensures forall x: nat :: ByteAt(shaped + [StackSegment()], x) == if STACK_BASE <= x < STACK_BASE + 0x20_0000 then Some(0) else ByteAt(shaped, x)
  {
    hide ByteAt;
    ShapeIsDisjoint(segs, shaped);
    Heap.AppendSegment(shaped, StackSegment());
  }

  /**
   The stages of the loader in order. The load fails exactly when the host refuses a mapping of the image or of
   the stack; refusals of the fixed pages are ignored.
   */
  method LoadProgram(mem: MemoryManager, p: Program, h: Hosts) returns (r: Option<Started>)
    requires mem.Valid() && mem.segments == [] && Loadable(p, h)
    modifies mem
    ensures r.Some? <==> ImageGranted(p, h) && h.stack.Granted?
    ensures r.Some? ==> mem.Valid() && Finished(old(mem.State()), p, h, mem.State(), r.value)
  {
    hide ByteAt, LoadAll, Stored, BindAll, Disjoint, SameShape, StackImage.ImageAt, WriteSpec, AlignUpPage, ImageReads, WithFixed, WithDefaults, Relr.Relocate, Relr.Listed, ImageGranted, StackImage.Fits, Placeable, Mapped;
    ghost var m0 := mem.State();
    ImagePlaced(m0, p, h);
    var max := LoadSegments(mem, p.image, p.bias, h.image);
    if max.None? {
      return None;
    }
    FixedAbove(mem.State(), h.fixed1, h.fixed2);
    MapFixed(mem, h.fixed1, h.fixed2);
    ghost var unlinked := mem.segments;
    assert unlinked == Unlinked(m0, p, h);
    var thunks := BindRelocations(mem, p.relocs, p.bias);
    var k := 0;
    while k < |p.sections|
      invariant 0 <= k <= |p.sections| && mem.Valid()
      invariant mem.State() == m0.(segments := mem.segments)
      invariant Packed(mem.segments, p.sections[k..], p.bias) == Linked(unlinked, p)
    {
      assert InRange(p.sections[k], p.bias);
      assert p.sections[k..][0] == p.sections[k] && p.sections[k..][1..] == p.sections[k + 1..];
      Relr.RelocateSection(mem, p.sections[k], p.bias);
      k := k + 1;
    }
    mem.SetBrkBase(max.value);
    ghost var linked := mem.segments;
    LinkedShape(unlinked, p);
    StackApart(unlinked, linked);
    var stack := mem.MapAnonymous(STACK_BASE, 0x20_0000, h.stack);
    if stack.None? {
      return None;
    }
    ghost var mapped := mem.segments;
    StackMapped(linked, mapped);
    var image := StackImage.BuildStack(mem, p.args, p.envs, p.info);
    BelowStack(linked, mapped, mem.segments, image.sp);
    return Some(Started(image, thunks));
  }

  lemma LinkedShape(segs: seq<Segment>, p: Program)
    ensures SameShape(segs, Linked(segs, p))
  {
    hide SameShape, Packed, Stored;
    var bound := Stored(segs, EMPTY, p.relocs, p.bias);
    StoredShape(segs, EMPTY, p.relocs, p.bias);
    PackedShape(bound, p.sections, p.bias);
    ShapeTransitive(segs, bound, Linked(segs, p));
  }

  lemma StackMapped(linked: seq<Segment>, mapped: seq<Segment>)
    requires forall x: nat :: ByteAt(mapped, x) == if STACK_BASE <= x < STACK_BASE + 0x20_0000 then Some(0) else ByteAt(linked, x)
    ensures Mapped(mapped, STACK_BASE, 0x20_0000)
  {
    hide ByteAt;
  }

  lemma BelowStack(linked: seq<Segment>, mapped: seq<Segment>, final: seq<Segment>, sp: uint64)
    requires forall x: nat :: ByteAt(mapped, x) == if STACK_BASE <= x < STACK_BASE + 0x20_0000 then Some(0) else ByteAt(linked, x)
    requires STACK_BASE <= sp && ChangesOnly(mapped, final, sp, 0x7fff_efff_f000)
    ensures forall x: nat :: x < STACK_BASE ==> ByteAt(final, x) == ByteAt(linked, x)
  {
    hide ByteAt;
  }

  // ---------- what a finished program reads ----------

  /** Every byte of the image that no relocation writes is the file's, or zero beyond the file's bytes. */
  lemma ImageByteReads(m0: Mem, p: Program, h: Hosts, m: Mem, s: Started, i: nat, x: nat)
    requires m0.segments == [] && Loadable(p, h) && Finished(m0, p, h, m, s) && AllForward(p.sections)
    requires i < |p.image| && p.image[i].address + p.bias <= x < p.image[i].address + p.bias + p.image[i].size
    requires SlotFree(p, x) && PackedFree(p.sections, p.bias, x)
    ensures var offset := x - (p.image[i].address + p.bias);
            ByteAt(m.segments, x) == Some(if offset < |p.image[i].data| then p.image[i].data[offset] else 0)
  {
    hide ByteAt, LoadAll, Linked, ReadSpec, Disjoint, SameShape, StackImage.ImageAt, AlignUpPage, SlotFree, PackedFree, WithFixed, WithDefaults;
    ImagePlaced(m0, p, h);
    var r := LoadAll(m0, p.image, p.bias, h.image, 0);
    FixedAbove(r.mem, h.fixed1, h.fixed2);
    LinkedElsewhere(Unlinked(m0, p, h), p, x);
    FileByte(r.mem.segments, p.image[i], p.bias, x);
  }

  lemma FileByte(segs: seq<Segment>, s: ElfSegment, bias: uint64, x: nat)
    requires s.size > 0 && |s.data| <= s.size && s.address + bias <= x < s.address + bias + s.size
    requires ReadSpec(segs, s.At(bias), s.size) == Some(s.data + Zeros(Gap(s)))
    ensures var offset := x - (s.address + bias);
            ByteAt(segs, x) == Some(if offset < |s.data| then s.data[offset] else 0)
  {
    hide ByteAt;
    var k := x - s.At(bias);
    assert ByteAt(segs, s.At(bias) + k) == Some((s.data + Zeros(Gap(s)))[k]);
  }

  /** A slot below the stack, apart from the other slots and from every packed word, holds its symbol's final word. */
  lemma SlotReads(m0: Mem, p: Program, h: Hosts, m: Mem, s: Started, i: nat)
    requires Loadable(p, h) && Finished(m0, p, h, m, s) && AllForward(p.sections)
    requires SlotReady(Unlinked(m0, p, h), p.relocs, p.bias, i) && Target(p.relocs[i], p.bias) + 8 <= STACK_BASE
    requires forall x: nat :: InSlot(p, i, x) ==> PackedFree(p.sections, p.bias, x)
    ensures Read64(m.segments, Target(p.relocs[i], p.bias)) == FinalWord(Unlinked(m0, p, h), p.relocs, p.bias, i)
  {
    hide ByteAt, Read64, Linked, Unlinked, LoadAll, SlotApart, Mapped, FinalWord, PackedFree, SameShape, StackImage.ImageAt, Placeable;
    var segs := Unlinked(m0, p, h);
    LinkedSlot(segs, p, i);
    SameWord(Linked(segs, p), m.segments, Target(p.relocs[i], p.bias));
  }

  /** A packed word below the stack that no slot and no other section writes holds what the image had there plus the bias. */
  lemma PackedReads(m0: Mem, p: Program, h: Hosts, m: Mem, s: Started, k: nat, a: nat)
    requires Loadable(p, h) && Finished(m0, p, h, m, s) && AllForward(p.sections)
    requires k < |p.sections| && Relr.Prescribed(p.sections[k], 0, a) && OwnWord(p.sections, p.bias, k, a)
    requires a + p.bias + 8 <= STACK_BASE && forall x: nat :: a + p.bias <= x < a + p.bias + 8 ==> SlotFree(p, x)
    ensures var v := Read64(Unlinked(m0, p, h), a + p.bias);
            Read64(m.segments, a + p.bias) == if v.Some? then Some((v.value + p.bias) % TWO64) else None
  {
    hide ByteAt, Read64, Linked, Unlinked, LoadAll, OwnWord, SlotFree, SameShape, StackImage.ImageAt, Placeable, Relr.Prescribed;
    var segs := Unlinked(m0, p, h);
    LinkedWord(segs, p, k, a);
    SameWord(Linked(segs, p), m.segments, a + p.bias);
  }

  /**
   The heap of a finished program is well formed and empty, starts at or above the end of every segment of a
   nonempty image, and lies apart from the fixed pages and the stack; so all that `Heap.HeapSurvives` says
   holds from here on.
   */
  lemma HeapReady(m0: Mem, p: Program, h: Hosts, m: Mem, s: Started)
    requires m0.segments == [] && Loadable(p, h) && Finished(m0, p, h, m, s)
    requires exists i :: 0 <= i < |p.image| && p.image[i].size > 0
    ensures Heap.HeapValid(m, FIXED) && m.brkBase == m.brkCurrent == m.brkMappedEnd
    ensures forall i :: 0 <= i < |p.image| && p.image[i].size > 0 ==> p.image[i].address + p.bias + p.image[i].size <= m.brkBase
  {
    hide ByteAt, LoadAll, ImageReads, AlignUpPage, Linked, StackImage.ImageAt, SameShape, Disjoint, WithDefaults, Heap.HeapValid;
    ImagePlaced(m0, p, h);
    var r := LoadAll(m0, p.image, p.bias, h.image, 0);
    var segs := Unlinked(m0, p, h);
    Heap.AlignUpProperties(r.maxVaddr.value);
    FixedAbove(r.mem, h.fixed1, h.fixed2);
    FixedApart(r.mem, h.fixed1, h.fixed2);
    LinkedShape(segs, p);
    StackApart(segs, Linked(segs, p));
    ShapeIsDisjoint(Linked(segs, p) + [StackSegment()], m.segments);
    HeapBetween(r.mem.segments, WithFixed(r.mem, h.fixed1, h.fixed2).segments, segs, Linked(segs, p), m.segments, AlignUpPage(r.maxVaddr.value));
    Heap.BaseStartsHeap(m0.(segments := m.segments), r.maxVaddr.value, FIXED);
  }

  lemma HeapBetween(image: seq<Segment>, fixed: seq<Segment>, segs: seq<Segment>, linked: seq<Segment>, final: seq<Segment>, top: nat)
    requires forall i :: 0 <= i < |image| ==> image[i].End() <= top
    requires |image| <= |fixed| && fixed[..|image|] == image && forall k :: |image| <= k < |fixed| ==> fixed[k].addr >= FIXED
    requires SameShape(fixed, segs) && SameShape(segs, linked) && SameShape(linked + [StackSegment()], final)
    ensures forall i :: 0 <= i < |final| ==> final[i].End() <= top || FIXED <= final[i].addr
  {
    forall i | 0 <= i < |final|
      ensures final[i].End() <= top || FIXED <= final[i].addr
    {
      if i < |image| {
        assert fixed[i] == fixed[..|image|][i];
      }
    }
  }
}
