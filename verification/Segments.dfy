/** Placing the segments of an ELF image, and starting the heap above them. */
module Segments {
  import opened Words
  import opened Memory
  import opened Heap

  const FIXED: nat := 0x7f00_0000

  /** A loadable segment: its memory size, and the bytes the file holds for it. */
  datatype ElfSegment = ElfSegment(address: uint64, size: nat, data: seq<byte>) {
    function At(bias: uint64): nat { address + bias }

    function PageStart(bias: uint64): nat { AlignDownPage(At(bias)) }

    /** The mapped size: whole pages that cover the segment. */
    function PageSize(bias: uint64): nat {
      (size + (At(bias) - PageStart(bias)) + (PAGE_SIZE - 1)) / PAGE_SIZE * PAGE_SIZE
    }

    function PageEnd(bias: uint64): nat { PageStart(bias) + PageSize(bias) }
  }

  datatype Loaded = Loaded(mem: Mem, ok: bool)

  predicate Placed(s: ElfSegment, bias: uint64) {
    s.size > 0 ==> 0 < s.PageStart(bias) && s.PageEnd(bias) < TWO64 && s.At(bias) + |s.data| < TWO64
  }

  predicate PagesApart(s: ElfSegment, t: ElfSegment, bias: uint64) {
    s.size > 0 && t.size > 0 ==> s.PageEnd(bias) <= t.PageStart(bias) || t.PageEnd(bias) <= s.PageStart(bias)
  }

  predicate Free(segs: seq<Segment>, s: ElfSegment, bias: uint64) {
    s.size > 0 ==>
      forall i :: 0 <= i < |segs| ==> segs[i].End() <= s.PageStart(bias) || s.PageEnd(bias) <= segs[i].addr
  }

  /** The page ranges are pairwise disjoint, apart from what is mapped already, and outside page zero. */
  predicate Placeable(segs: seq<Segment>, image: seq<ElfSegment>, bias: uint64) {
    && Disjoint(segs)
    && (forall i :: 0 <= i < |image| ==> Placed(image[i], bias) && Free(segs, image[i], bias))
    && (forall i, j :: 0 <= i < j < |image| ==> PagesApart(image[i], image[j], bias))
  }

  lemma PageEndIsAligned(s: ElfSegment, bias: uint64)
    ensures s.PageEnd(bias) == AlignUpPage(s.At(bias) + s.size)
    ensures s.PageStart(bias) <= s.At(bias) && s.At(bias) + s.size <= s.PageEnd(bias)
    ensures s.PageStart(bias) % 4096 == 0 && s.address + bias < s.PageStart(bias) + 4096
  {
    var a, z := s.PageStart(bias), s.At(bias) + s.size;
    assert a % PAGE_SIZE == 0;
    var q := (z - a + PAGE_SIZE - 1) / PAGE_SIZE;
    assert s.PageSize(bias) == q * PAGE_SIZE;
    assert AlignUpPage(z) == (z + PAGE_SIZE - 1) / PAGE_SIZE * PAGE_SIZE;
    assert a == a / PAGE_SIZE * PAGE_SIZE;
  }

  /** The bytes of the segment beyond those the file holds. */
  function Gap(s: ElfSegment): nat { if s.size > |s.data| then s.size - |s.data| else 0 }

  /** The file bytes, then zeros up to the memory size; a failing store ends it. */
  function Fill(segs: seq<Segment>, s: ElfSegment, bias: uint64): WriteResult {
    var w := WriteSpec(segs, s.At(bias), s.data);
    if !w.ok || s.size <= |s.data| then w
    else WriteSpec(w.segments, s.At(bias) + |s.data|, Zeros(Gap(s)))
  }

  function LoadOne(m: Mem, s: ElfSegment, bias: uint64, host: HostMap): Loaded
    requires Placed(s, bias)
  {
    if s.size == 0 then Loaded(m, true)
    else
      var mapped := MapSpec(m, s.PageStart(bias), s.PageSize(bias), host);
      if mapped.addr.None? then Loaded(m, false)
      else
        var filled := Fill(mapped.mem.segments, s, bias);
        Loaded(mapped.mem.(segments := filled.segments), filled.ok)
  }

  function Larger(a: nat, b: nat): nat { if a < b then b else a }

  function EndOf(s: ElfSegment, bias: uint64): nat { if s.size == 0 then 0 else s.At(bias) + s.size }

  datatype LoadedAll = LoadedAll(mem: Mem, maxVaddr: Option<nat>)

  /** All segments in order; the first failure stops the load where it stands. */
  function LoadAll(m: Mem, image: seq<ElfSegment>, bias: uint64, hosts: seq<HostMap>, max: nat): LoadedAll
    requires |hosts| == |image| && forall i :: 0 <= i < |image| ==> Placed(image[i], bias)
    decreases |image|
  {
    if image == [] then LoadedAll(m, Some(max))
    else
      var one := LoadOne(m, image[0], bias, hosts[0]);
      if !one.ok then LoadedAll(one.mem, None)
      else LoadAll(one.mem, image[1..], bias, hosts[1..], Larger(max, EndOf(image[0], bias)))
  }

  // ---------- what loading one segment does ----------

  function PageSegment(s: ElfSegment, bias: uint64): Segment
    requires Placed(s, bias) && s.size > 0
  {
    Mapping(s.PageStart(bias), Zeros(s.PageSize(bias)))
  }

  /** The byte that the image gives an address inside its pages. */
  function ImageByte(s: ElfSegment, bias: uint64, x: nat): byte {
    if s.At(bias) <= x < s.At(bias) + |s.data| then s.data[x - s.At(bias)] else 0
  }

  lemma MapPages(m: Mem, s: ElfSegment, bias: uint64, host: HostMap)
    requires s.size > 0 && Placed(s, bias) && Free(m.segments, s, bias) && Disjoint(m.segments)
    requires host.Granted?
    ensures var mapped := MapSpec(m, s.PageStart(bias), s.PageSize(bias), host);
            && mapped.addr.Some? && mapped.mem == m.(segments := m.segments + [PageSegment(s, bias)])
            && Disjoint(mapped.mem.segments)
            && (forall x: nat :: ByteAt(mapped.mem.segments, x) ==
                                 if s.PageStart(bias) <= x < s.PageEnd(bias) then Some(0) else ByteAt(m.segments, x))
  {
    PageEndIsAligned(s, bias);
    AppendSegment(m.segments, PageSegment(s, bias));
  }

  lemma LoadOneExact(m: Mem, s: ElfSegment, bias: uint64, host: HostMap)
    requires s.size > 0 && Placed(s, bias) && Free(m.segments, s, bias) && Disjoint(m.segments)
    requires host.Granted? && |s.data| <= s.size
    ensures var r := LoadOne(m, s, bias, host);
            && r.ok && Disjoint(r.mem.segments)
            && r.mem == m.(segments := r.mem.segments)
            && SameShape(m.segments + [PageSegment(s, bias)], r.mem.segments)
            && (forall x: nat :: ByteAt(r.mem.segments, x) ==
                                 if s.PageStart(bias) <= x < s.PageEnd(bias) then Some(ImageByte(s, bias, x))
                                 else ByteAt(m.segments, x))
  {
    PageEndIsAligned(s, bias);
    MapPages(m, s, bias, host);
    hide Fill, MapSpec, AlignDownPage, AlignUpPage, ByteAt, Disjoint, SameShape, ImageByte, ElfSegment.PageSize;
    FillIsImage(m.segments + [PageSegment(s, bias)], s, bias);
  }

  /** The two stores of a segment into its freshly mapped pages. */
  lemma FillIsImage(base: seq<Segment>, s: ElfSegment, bias: uint64)
    requires Disjoint(base) && |s.data| <= s.size
    requires s.PageStart(bias) <= s.At(bias) && s.At(bias) + s.size <= s.PageEnd(bias)
    requires forall x: nat :: s.PageStart(bias) <= x < s.PageEnd(bias) ==> ByteAt(base, x) == Some(0)
    ensures var last := Fill(base, s, bias);
            && last.ok && Disjoint(last.segments) && SameShape(base, last.segments)
            && (forall x: nat :: ByteAt(last.segments, x) ==
                                 if s.PageStart(bias) <= x < s.PageEnd(bias) then Some(ImageByte(s, bias, x))
                                 else ByteAt(base, x))
  {
    hide WriteSpec, AlignDownPage, ByteAt, Disjoint;
    var w := WriteSpec(base, s.At(bias), s.data);
    StoreInPages(base, s, bias, s.At(bias), s.data);
    if s.size > |s.data| {
      StoreInPages(w.segments, s, bias, s.At(bias) + |s.data|, Zeros(Gap(s)));
    }
  }

  /** A store inside mapped pages succeeds and keeps the ranges. */
  lemma StoreInPages(segs: seq<Segment>, s: ElfSegment, bias: uint64, a: nat, d: seq<byte>)
    requires Mapped(segs, s.PageStart(bias), s.PageSize(bias)) && Disjoint(segs)
    requires s.PageStart(bias) <= a && a + |d| <= s.PageEnd(bias)
    ensures var w := WriteSpec(segs, a, d);
            && w.ok && Disjoint(w.segments) && SameShape(segs, w.segments)
            && Mapped(w.segments, s.PageStart(bias), s.PageSize(bias))
            && (forall x: nat :: ByteAt(w.segments, x) == if a <= x < a + |d| then Some(d[x - a]) else ByteAt(segs, x))
  {
    hide WriteSpec, AlignDownPage, ByteAt, Disjoint;
    WriteExact(segs, a, d);
    WriteKeepsShape(segs, a, d);
  }

  // ---------- the whole image ----------

  /** Every nonempty segment reads back as its file bytes followed by zeros. */
  predicate ImageReads(segs: seq<Segment>, image: seq<ElfSegment>, bias: uint64) {
    forall i :: 0 <= i < |image| && image[i].size > 0 && |image[i].data| <= image[i].size ==>
      ReadSpec(segs, image[i].At(bias), image[i].size) == Some(image[i].data + Zeros(Gap(image[i])))
  }

  predicate InPages(image: seq<ElfSegment>, bias: uint64, x: nat) {
    exists i :: 0 <= i < |image| && image[i].size > 0 && image[i].PageStart(bias) <= x < image[i].PageEnd(bias)
  }

  lemma ReadsBack(segs: seq<Segment>, s: ElfSegment, bias: uint64)
    requires s.size > 0 && |s.data| <= s.size
    requires forall x: nat :: s.PageStart(bias) <= x < s.PageEnd(bias) ==> ByteAt(segs, x) == Some(ImageByte(s, bias, x))
    ensures ReadSpec(segs, s.At(bias), s.size) == Some(s.data + Zeros(Gap(s)))
  {
    PageEndIsAligned(s, bias);
    hide AlignDownPage, AlignUpPage, ByteAt, ReadSpec;
    var d := s.data + Zeros(Gap(s));
    forall k | 0 <= k < |d|
      ensures ByteAt(segs, s.At(bias) + k) == Some(d[k])
    {
      assert ImageByte(s, bias, s.At(bias) + k) == d[k];
    }
    ReadUnique(segs, s.At(bias), d);
  }

  lemma StillPlaceable(m: Mem, image: seq<ElfSegment>, bias: uint64, host: HostMap, m1: Mem)
    requires image != [] && Placeable(m.segments, image, bias)
    requires Disjoint(m1.segments)
    requires if image[0].size == 0 then m1 == m else SameShape(m.segments + [PageSegment(image[0], bias)], m1.segments)
    ensures Placeable(m1.segments, image[1..], bias)
  {
    var rest := image[1..];
    assert forall i :: 0 <= i < |rest| ==> rest[i] == image[i + 1];
    if image[0].size > 0 {
      PageEndIsAligned(image[0], bias);
      var base := m.segments + [PageSegment(image[0], bias)];
      assert base[|m.segments|] == PageSegment(image[0], bias);
      forall i | 0 <= i < |rest|
        ensures Free(m1.segments, rest[i], bias)
      {
        assert Free(m.segments, image[i + 1], bias);
        assert PagesApart(image[0], image[i + 1], bias);
        assert forall k :: 0 <= k < |m.segments| ==> base[k] == m.segments[k];
      }
    }
  }

  lemma AlignUpMonotone(a: nat, b: nat)
    requires a <= b
    ensures AlignUpPage(a) <= AlignUpPage(b)
  {
    AlignUpProperties(b);
    AlignUpProperties(a);
  }

  /** A page of the first segment is a page of no later one. */
  lemma PagesDiffer(image: seq<ElfSegment>, bias: uint64, x: nat)
    requires image != [] && forall i, j :: 0 <= i < j < |image| ==> PagesApart(image[i], image[j], bias)
    requires image[0].size > 0 && image[0].PageStart(bias) <= x < image[0].PageEnd(bias)
    ensures !InPages(image[1..], bias, x)
  {
    hide AlignDownPage;
    assert forall i :: 0 < i < |image| ==> image[i] == image[1..][i - 1];
  }

  lemma InLaterPages(image: seq<ElfSegment>, bias: uint64, x: nat)
    requires image != [] && InPages(image[1..], bias, x)
    ensures InPages(image, bias, x)
  {
    hide AlignDownPage;
    var i :| 0 <= i < |image[1..]| && image[1..][i].size > 0 && image[1..][i].PageStart(bias) <= x < image[1..][i].PageEnd(bias);
    assert image[i + 1] == image[1..][i];
  }

  lemma ReadsExtend(segs: seq<Segment>, image: seq<ElfSegment>, bias: uint64)
    requires image != [] && ImageReads(segs, image[1..], bias)
    requires image[0].size > 0 && |image[0].data| <= image[0].size ==>
               ReadSpec(segs, image[0].At(bias), image[0].size) == Some(image[0].data + Zeros(Gap(image[0])))
    ensures ImageReads(segs, image, bias)
  {
    hide ReadSpec;
    assert forall i :: 0 < i < |image| ==> image[i] == image[1..][i - 1];
  }

  /**
   When the host grants every mapping and the page ranges are disjoint, the load succeeds; every segment
   reads back as its file data followed by zeros; nothing mapped before changes; and every new segment
   ends at or below the page-aligned end of the image.
   */
  lemma {:induction false} ImageLoads(m: Mem, image: seq<ElfSegment>, bias: uint64, hosts: seq<HostMap>, max: nat)
    requires |hosts| == |image| && Placeable(m.segments, image, bias)
    requires forall i :: 0 <= i < |image| && image[i].size > 0 ==> hosts[i].Granted? && |image[i].data| <= image[i].size
    ensures var r := LoadAll(m, image, bias, hosts, max);
            && r.maxVaddr.Some? && r.maxVaddr.value >= max
            && (forall i :: 0 <= i < |image| ==> EndOf(image[i], bias) <= r.maxVaddr.value)
            && Disjoint(r.mem.segments) && r.mem == m.(segments := r.mem.segments)
            && |m.segments| <= |r.mem.segments| && SameShape(m.segments, r.mem.segments[..|m.segments|])
            && (forall k :: |m.segments| <= k < |r.mem.segments| ==> r.mem.segments[k].End() <= AlignUpPage(r.maxVaddr.value))
            && ImageReads(r.mem.segments, image, bias)
            && (forall x: nat :: !InPages(image, bias, x) ==> ByteAt(r.mem.segments, x) == ByteAt(m.segments, x))
    decreases |image|
  {
    hide LoadOne, AlignUpPage, AlignDownPage, ByteAt, ReadSpec, Disjoint;
    if image != [] {
      var s, rest := image[0], image[1..];
      var m1 := LoadOne(m, s, bias, hosts[0]).mem;
      var max1 := Larger(max, EndOf(s, bias));
      if s.size == 0 {
        assert LoadOne(m, s, bias, hosts[0]) == Loaded(m, true) by { EmptySegment(m, s, bias, hosts[0]); }
      } else {
        PageEndIsAligned(s, bias);
        LoadOneExact(m, s, bias, hosts[0]);
      }
      StillPlaceable(m, image, bias, hosts[0], m1);
      ImageLoads(m1, rest, bias, hosts[1..], max1);
      var r := LoadAll(m, image, bias, hosts, max);
      assert r == LoadAll(m1, rest, bias, hosts[1..], max1);
      LaterSegments(m, m1, r.mem, s, bias, r.maxVaddr.value);
      LaterBytes(m, m1, r.mem, image, bias);
    }
  }

  /** The address found for the heap is the largest segment end, or the start value where that is larger. */
  lemma {:induction false} HighestEnd(m: Mem, image: seq<ElfSegment>, bias: uint64, hosts: seq<HostMap>, max: nat)
    requires |hosts| == |image| && forall i :: 0 <= i < |image| ==> Placed(image[i], bias)
    ensures var found := LoadAll(m, image, bias, hosts, max).maxVaddr;
            found.Some? ==>
              && max <= found.value
              && (forall i :: 0 <= i < |image| && image[i].size > 0 ==> image[i].address + bias + image[i].size <= found.value)
              && (found.value == max || exists i :: 0 <= i < |image| && image[i].size > 0 && image[i].address + bias + image[i].size == found.value)
    decreases |image|
  {
    hide LoadOne, ElfSegment.PageSize, ElfSegment.PageStart;
    if image != [] {
      var one := LoadOne(m, image[0], bias, hosts[0]);
      var rest, max1 := image[1..], Larger(max, EndOf(image[0], bias));
      assert forall i :: 1 <= i < |image| ==> image[i] == rest[i - 1];
      HighestEnd(one.mem, rest, bias, hosts[1..], max1);
      var found := LoadAll(m, image, bias, hosts, max).maxVaddr;
      if found.Some? && found.value != max1 {
        var j :| 0 <= j < |rest| && rest[j].size > 0 && rest[j].address + bias + rest[j].size == found.value;
        assert image[j + 1] == rest[j];
      }
    }
  }

  /** A refused mapping stops the load: no highest address is reported, and memory holds what the segments before it left. */
  lemma {:induction false} RefusedLoad(m: Mem, image: seq<ElfSegment>, bias: uint64, hosts: seq<HostMap>, max: nat, i: nat)
    requires |hosts| == |image| && Placeable(m.segments, image, bias) && i < |image|
    requires image[i].size > 0 && hosts[i].Refused?
    requires forall j :: 0 <= j < i && image[j].size > 0 ==> hosts[j].Granted? && |image[j].data| <= image[j].size
    ensures LoadAll(m, image, bias, hosts, max) == LoadedAll(LoadAll(m, image[..i], bias, hosts[..i], max).mem, None)
    decreases i
  {
    hide AlignUpPage, AlignDownPage, ByteAt, Disjoint, Fill, PagesApart, Free;
    var s := image[0];
    if i > 0 {
      hide LoadOne, Placeable;
      var m1, max1 := LoadOne(m, s, bias, hosts[0]).mem, Larger(max, EndOf(s, bias));
      LoadContinues(m, image, bias, hosts[0]);
      assert image[1..][..i - 1] == image[..i][1..] && hosts[1..][..i - 1] == hosts[..i][1..];
      RefusedLoad(m1, image[1..], bias, hosts[1..], max1, i - 1);
    }
  }

  lemma LoadContinues(m: Mem, image: seq<ElfSegment>, bias: uint64, host: HostMap)
    requires image != [] && Placeable(m.segments, image, bias)
    requires image[0].size > 0 ==> host.Granted? && |image[0].data| <= image[0].size
    ensures Placed(image[0], bias) && LoadOne(m, image[0], bias, host).ok
    ensures Placeable(LoadOne(m, image[0], bias, host).mem.segments, image[1..], bias)
  {
    hide AlignUpPage, AlignDownPage, ByteAt;
    var s := image[0];
    if s.size == 0 {
      EmptySegment(m, s, bias, host);
    } else {
      LoadOneExact(m, s, bias, host);
    }
    StillPlaceable(m, image, bias, host, LoadOne(m, s, bias, host).mem);
  }

  lemma EmptySegment(m: Mem, s: ElfSegment, bias: uint64, host: HostMap)
    requires s.size == 0
    ensures LoadOne(m, s, bias, host) == Loaded(m, true)
  {
  }

  lemma LaterSegments(m: Mem, m1: Mem, m2: Mem, s: ElfSegment, bias: uint64, max: nat)
    requires Placed(s, bias) && EndOf(s, bias) <= max
    requires if s.size == 0 then m1 == m else SameShape(m.segments + [PageSegment(s, bias)], m1.segments)
    requires |m1.segments| <= |m2.segments| && SameShape(m1.segments, m2.segments[..|m1.segments|])
    requires forall k :: |m1.segments| <= k < |m2.segments| ==> m2.segments[k].End() <= AlignUpPage(max)
    ensures |m.segments| <= |m2.segments| && SameShape(m.segments, m2.segments[..|m.segments|])
    ensures forall k :: |m.segments| <= k < |m2.segments| ==> m2.segments[k].End() <= AlignUpPage(max)
  {
    if s.size > 0 {
      PageEndIsAligned(s, bias);
      AlignUpMonotone(s.At(bias) + s.size, max);
      hide AlignUpPage, AlignDownPage;
      var n := |m.segments|;
      var base := m.segments + [PageSegment(s, bias)];
      assert base[n] == PageSegment(s, bias);
      assert m2.segments[n] == m2.segments[..n + 1][n];
      assert m2.segments[n].End() <= AlignUpPage(max);
      assert forall k :: 0 <= k < n ==> m2.segments[..n][k] == m2.segments[..n + 1][k] && base[k] == m.segments[k];
    }
  }

  lemma LaterBytes(m: Mem, m1: Mem, m2: Mem, image: seq<ElfSegment>, bias: uint64)
    requires image != [] && (image[0].size > 0 ==> |image[0].data| <= image[0].size)
    requires forall i, j :: 0 <= i < j < |image| ==> PagesApart(image[i], image[j], bias)
    requires var s := image[0];
             if s.size == 0 then m1 == m
             else forall x: nat :: ByteAt(m1.segments, x) ==
                                   if s.PageStart(bias) <= x < s.PageEnd(bias) then Some(ImageByte(s, bias, x))
                                   else ByteAt(m.segments, x)
    requires ImageReads(m2.segments, image[1..], bias)
    requires forall x: nat :: !InPages(image[1..], bias, x) ==> ByteAt(m2.segments, x) == ByteAt(m1.segments, x)
    ensures ImageReads(m2.segments, image, bias)
    ensures forall x: nat :: !InPages(image, bias, x) ==> ByteAt(m2.segments, x) == ByteAt(m.segments, x)
  {
    hide ByteAt, ReadSpec, ImageByte, InPages, ImageReads, AlignDownPage;
    var s := image[0];
    if s.size > 0 {
      forall x: nat | s.PageStart(bias) <= x < s.PageEnd(bias)
        ensures ByteAt(m2.segments, x) == Some(ImageByte(s, bias, x))
      {
        PagesDiffer(image, bias, x);
      }
      ReadsBack(m2.segments, s, bias);
    }
    ReadsExtend(m2.segments, image, bias);
    forall x: nat | !InPages(image, bias, x)
      ensures ByteAt(m2.segments, x) == ByteAt(m.segments, x)
    {
      NotInPages(image, bias, x);
    }
  }

  lemma NotInPages(image: seq<ElfSegment>, bias: uint64, x: nat)
    requires image != [] && !InPages(image, bias, x)
    ensures !InPages(image[1..], bias, x)
    ensures image[0].size > 0 ==> !(image[0].PageStart(bias) <= x < image[0].PageEnd(bias))
  {
    if InPages(image[1..], bias, x) {
      InLaterPages(image, bias, x);
    }
  }

  // ---------- the loader's loop ----------

  /** Maps and fills each segment in turn, and finds the highest address of the image. */
  method LoadSegments(mem: MemoryManager, image: seq<ElfSegment>, bias: uint64, hosts: seq<HostMap>)
    returns (maxVaddr: Option<nat>)
    requires mem.Valid() && |hosts| == |image| && Placeable(mem.segments, image, bias)
    modifies mem
    ensures LoadedAll(mem.State(), maxVaddr) == LoadAll(old(mem.State()), image, bias, hosts, 0)
  {
    hide MapSpec, WriteSpec, AlignDownPage, AlignUpPage, ElfSegment.PageSize;
    var max: nat := 0;
    var k := 0;
    while k < |image|
      invariant 0 <= k <= |image|
      invariant mem.Valid() && Placeable(mem.segments, image[k..], bias)
      invariant LoadAll(mem.State(), image[k..], bias, hosts[k..], max) == LoadAll(old(mem.State()), image, bias, hosts, 0)
    {
      var s := image[k];
      assert image[k..][0] == s && image[k..][1..] == image[k + 1..] && hosts[k..][1..] == hosts[k + 1..];
      assert Placed(s, bias) && Free(mem.segments, s, bias);
      ghost var before := mem.State();
      if s.size > 0 {
        var ok := LoadSegment(mem, s, bias, hosts[k]);
        if !ok {
          return None;
        }
        if s.At(bias) + s.size > max {
          max := s.At(bias) + s.size;
        }
      }
      StillPlaceable(before, image[k..], bias, hosts[k], mem.State());
      k := k + 1;
    }
    return Some(max);
  }

  lemma FillKeepsShape(segs: seq<Segment>, s: ElfSegment, bias: uint64)
    requires Disjoint(segs)
    ensures Disjoint(Fill(segs, s, bias).segments) && SameShape(segs, Fill(segs, s, bias).segments)
  {
    hide WriteSpec, Disjoint, SameShape;
    WriteKeepsShape(segs, s.At(bias), s.data);
    var w := WriteSpec(segs, s.At(bias), s.data).segments;
    WriteKeepsShape(w, s.At(bias) + |s.data|, Zeros(Gap(s)));
    ShapeTransitive(segs, w, WriteSpec(w, s.At(bias) + |s.data|, Zeros(Gap(s))).segments);
  }

  lemma LoadCases(m: Mem, s: ElfSegment, bias: uint64, host: HostMap)
    requires s.size > 0 && Placed(s, bias) && Free(m.segments, s, bias) && Disjoint(m.segments)
    ensures var mapped := MapSpec(m, s.PageStart(bias), s.PageSize(bias), host);
            && (mapped.addr.None? ==> mapped.mem == m && LoadOne(m, s, bias, host) == Loaded(m, false))
            && (mapped.addr.Some? ==>
                  && Disjoint(mapped.mem.segments)
                  && mapped.mem == m.(segments := m.segments + [PageSegment(s, bias)])
                  && var last := Fill(mapped.mem.segments, s, bias);
                  && LoadOne(m, s, bias, host) == Loaded(m.(segments := last.segments), last.ok)
                  && SameShape(m.segments + [PageSegment(s, bias)], last.segments))
  {
    hide Fill, Disjoint, SameShape, AlignDownPage, ElfSegment.PageSize;
    if host.Granted? {
      MapPages(m, s, bias, host);
      FillKeepsShape(m.segments + [PageSegment(s, bias)], s, bias);
    }
  }

  /** Stores a segment's file bytes, then zeros up to its memory size. */
  method FillSegment(mem: MemoryManager, s: ElfSegment, bias: uint64) returns (ok: bool)
    requires mem.Valid() && s.At(bias) + |s.data| < TWO64
    modifies mem
    ensures mem.Valid()
    ensures mem.State() == old(mem.State()).(segments := Fill(old(mem.segments), s, bias).segments)
    ensures ok == Fill(old(mem.segments), s, bias).ok
  {
    hide WriteSpec, Disjoint;
    ok := mem.Write(s.At(bias), s.data);
    if ok && s.size > |s.data| {
      ok := mem.Write(s.At(bias) + |s.data|, Zeros(s.size - |s.data|));
    }
  }

  method LoadSegment(mem: MemoryManager, s: ElfSegment, bias: uint64, host: HostMap) returns (ok: bool)
    requires s.size > 0 && Placed(s, bias) && Free(mem.segments, s, bias) && mem.Valid()
    modifies mem
    ensures Loaded(mem.State(), ok) == LoadOne(old(mem.State()), s, bias, host)
    ensures ok ==> mem.Valid() && SameShape(old(mem.segments) + [PageSegment(s, bias)], mem.segments)
  {
    PageEndIsAligned(s, bias);
    LoadCases(mem.State(), s, bias, host);
    hide LoadOne, MapSpec, Fill, AlignDownPage, AlignUpPage, SameShape, ElfSegment.PageSize, Disjoint;
    var mapped := mem.MapAnonymous(s.PageStart(bias), s.PageSize(bias), host);
    if mapped.None? {
      return false;
    }
    ok := FillSegment(mem, s, bias);
  }

  // ---------- the heap above the image ----------

  /** The two fixed mappings made after the image; a refusal is ignored. */
  function WithFixed(m: Mem, h1: HostMap, h2: HostMap): Mem {
    MapSpec(MapSpec(m, FIXED, 0x2_0000, h1).mem, FIXED + 0x2_0000, 0x1_0000, h2).mem
  }

  /** The first words of optind and opterr, which the library starts at 1. */
  function WithDefaults(segs: seq<Segment>): seq<Segment> {
    WriteSpec(WriteSpec(segs, 0x7f01_0300, Le(1, 4)).segments, 0x7f01_0310, Le(1, 4)).segments
  }

  /** Maps the trampoline and data pages, then the pages above them, and stores the two defaults. */
  method MapFixed(mem: MemoryManager, h1: HostMap, h2: HostMap)
    requires mem.Valid() && forall i :: 0 <= i < |mem.segments| ==> mem.segments[i].End() <= FIXED
    modifies mem
    ensures mem.Valid()
    ensures mem.State() == old(mem.State()).(segments := WithDefaults(WithFixed(old(mem.State()), h1, h2).segments))
  {
    hide WriteSpec, Le;
    FixedApart(mem.State(), h1, h2);
    FirstApart(mem.State(), h1);
    var first := mem.MapAnonymous(FIXED, 0x2_0000, h1);
    var second := mem.MapAnonymous(FIXED + 0x2_0000, 0x1_0000, h2);
    var ok := mem.Write(0x7f01_0300, Le(1, 4));
    ok := mem.Write(0x7f01_0310, Le(1, 4));
  }

  lemma FirstApart(m: Mem, h: HostMap)
    requires Disjoint(m.segments) && forall i :: 0 <= i < |m.segments| ==> m.segments[i].End() <= FIXED
    ensures var m1 := MapSpec(m, FIXED, 0x2_0000, h).mem;
            Disjoint(m1.segments) && forall i :: 0 <= i < |m1.segments| ==> m1.segments[i].End() <= FIXED + 0x2_0000
  {
    if h.Granted? {
      AppendSegment(m.segments, Mapping(FIXED, Zeros(0x2_0000)));
    }
  }

  /**
   Above an image that ends below them, the fixed pages run from 0x7f000000 to 0x7f030000. They hold the number 1
   in four bytes at 0x7f010300 and at 0x7f010310, and zeros everywhere else; nothing below them changes.
   */
  lemma FixedPages(m: Mem, h1: HostMap, h2: HostMap)
    requires Disjoint(m.segments) && forall i :: 0 <= i < |m.segments| ==> m.segments[i].End() <= FIXED
    requires h1.Granted? && h2.Granted?
    ensures var segs := WithDefaults(WithFixed(m, h1, h2).segments);
            forall x: nat :: ByteAt(segs, x) ==
                             if x == 0x7f01_0300 || x == 0x7f01_0310 then Some(1)
                             else if 0x7f00_0000 <= x < 0x7f03_0000 then Some(0) else ByteAt(m.segments, x)
  {
    hide ByteAt, WriteSpec, Disjoint;
    FirstApart(m, h1);
    MapExact(m, FIXED, 0x2_0000, h1);
    var m1 := MapSpec(m, FIXED, 0x2_0000, h1).mem;
    MapExact(m1, FIXED + 0x2_0000, 0x1_0000, h2);
    var segs := WithFixed(m, h1, h2).segments;
    WriteExact(segs, 0x7f01_0300, Le(1, 4));
    WriteExact(WriteSpec(segs, 0x7f01_0300, Le(1, 4)).segments, 0x7f01_0310, Le(1, 4));
    OneWord();
  }

  lemma OneWord()
    ensures Le(1, 4) == [1, 0, 0, 0]
  {
    assert Le(1, 4) == [1] + Le(0, 3) && Le(0, 3) == [0] + Le(0, 2) && Le(0, 2) == [0] + Le(0, 1) && Le(0, 1) == [0] + Le(0, 0);
  }

  lemma ShapeIsDisjoint(segs: seq<Segment>, segs': seq<Segment>)
    requires Disjoint(segs) && SameShape(segs, segs')
    ensures Disjoint(segs')
  {
    forall i, j | 0 <= i < j < |segs'|
      ensures Apart(segs'[i], segs'[j])
    {
      assert Apart(segs[i], segs[j]);
    }
  }

  lemma FixedApart(m: Mem, h1: HostMap, h2: HostMap)
    requires Disjoint(m.segments) && forall i :: 0 <= i < |m.segments| ==> m.segments[i].End() <= FIXED
    ensures var segs := WithFixed(m, h1, h2).segments;
            && Disjoint(segs) && |m.segments| <= |segs| && segs[..|m.segments|] == m.segments
            && (forall k :: |m.segments| <= k < |segs| ==> segs[k].addr >= FIXED)
            && WithFixed(m, h1, h2) == m.(segments := segs)
  {
    var m1 := MapSpec(m, FIXED, 0x2_0000, h1).mem;
    if h1.Granted? {
      AppendSegment(m.segments, Mapping(FIXED, Zeros(0x2_0000)));
    }
    if h2.Granted? {
      AppendSegment(m1.segments, Mapping(FIXED + 0x2_0000, Zeros(0x1_0000)));
    }
  }

  /**
   Image and heap never overlap. In a fresh memory, once the image and the fixed mappings are in place and
   whatever has been stored in them since, setting the break base to the end of the image gives a
   well-formed, empty heap that starts at or above every image segment.
   */
  lemma HeapAboveImage(m: Mem, image: seq<ElfSegment>, bias: uint64, hosts: seq<HostMap>,
                       h1: HostMap, h2: HostMap, segs: seq<Segment>)
    requires m.segments == [] && |hosts| == |image| && Placeable([], image, bias)
    requires forall i :: 0 <= i < |image| && image[i].size > 0 ==> hosts[i].Granted? && |image[i].data| <= image[i].size
    requires var max := LoadAll(m, image, bias, hosts, 0).maxVaddr;
             max.Some? && 0 < max.value && AlignUpPage(max.value) <= FIXED
    requires SameShape(WithFixed(LoadAll(m, image, bias, hosts, 0).mem, h1, h2).segments, segs)
    ensures var r := LoadAll(m, image, bias, hosts, 0);
            var m' := SetBrkBaseSpec(r.mem.(segments := segs), r.maxVaddr.value);
            && HeapValid(m', FIXED)
            && (forall i :: 0 <= i < |image| ==> EndOf(image[i], bias) <= m'.brkBase)
            && (forall k :: 0 <= k < |r.mem.segments| ==> segs[k].End() <= m'.brkBase)
  {
    ImageLoads(m, image, bias, hosts, 0);
    hide LoadAll, MapSpec, AlignUpPage, ImageReads, HeapValid;
    var r := LoadAll(m, image, bias, hosts, 0);
    var fixed := WithFixed(r.mem, h1, h2).segments;
    FixedApart(r.mem, h1, h2);
    ShapeIsDisjoint(fixed, segs);
    AlignUpProperties(r.maxVaddr.value);
    forall k | 0 <= k < |segs|
      ensures if k < |r.mem.segments| then segs[k].End() <= AlignUpPage(r.maxVaddr.value) else FIXED <= segs[k].addr
    {
      assert k < |r.mem.segments| ==> fixed[k] == fixed[..|r.mem.segments|][k];
    }
    BaseStartsHeap(r.mem.(segments := segs), r.maxVaddr.value, FIXED);
  }

  /** No later break request, and no store elsewhere, changes what an image segment reads as. */
  lemma ImageSurvives(m: Mem, s: ElfSegment, bias: uint64, steps: seq<HeapStep>, d: seq<byte>)
    requires HeapValid(m, FIXED) && forall i :: 0 <= i < |steps| ==> Below(steps[i], FIXED)
    requires ReadSpec(m.segments, s.At(bias), s.size) == Some(d)
    requires forall x :: s.At(bias) <= x < s.At(bias) + s.size ==> Untouched(steps, x)
    ensures ReadSpec(Run(m, steps, FIXED).segments, s.At(bias), s.size) == Some(d)
  {
    hide HeapValid, ReadSpec, Untouched;
    HeapSurvives(m, steps, FIXED);
    ReadCongruence(m.segments, Run(m, steps, FIXED).segments, s.At(bias), s.size);
  }
}
