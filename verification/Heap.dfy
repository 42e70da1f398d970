/** The program break: what every sequence of growth, shrinking and stores keeps. */
module Heap {
  import opened Words
  import opened Memory

  /** A step of a program that uses its heap: a break request with the host's answer, or a store. */
  datatype HeapStep = Brk(newBrk: uint64, host: HostMap) | Store(addr: uint64, data: seq<byte>)

  /**
   The heap is a page-aligned range tiled by segments that lie wholly inside it; every other segment
   lies below it or at and above `limit`, the first fixed mapping.
   */
  predicate HeapValid(m: Mem, limit: nat) {
    && 0 < m.brkBase <= m.brkCurrent <= m.brkMappedEnd <= limit < TWO64
    && m.brkBase % PAGE_SIZE == 0 && m.brkMappedEnd % PAGE_SIZE == 0
    && Disjoint(m.segments)
    && Mapped(m.segments, m.brkBase, m.brkMappedEnd - m.brkBase)
    && forall i :: 0 <= i < |m.segments| ==> InHeap(m, m.segments[i]) || OutsideHeap(m, m.segments[i], limit)
  }

  predicate InHeap(m: Mem, s: Segment) { m.brkBase <= s.addr && s.End() <= m.brkMappedEnd }

  predicate OutsideHeap(m: Mem, s: Segment, limit: nat) { s.End() <= m.brkBase || limit <= s.addr }

  /** A break request stays below the first fixed mapping. */
  predicate Below(step: HeapStep, limit: nat) {
    step.Brk? ==> AlignUpPage(step.newBrk) <= limit
  }

  lemma AlignUpProperties(a: nat)
    ensures AlignUpPage(a) % 4096 == 0
    ensures a <= AlignUpPage(a) < a + 4096
    ensures forall b: nat :: a <= b && b % 4096 == 0 ==> AlignUpPage(a) <= b
  {
  }

  function TakeStep(m: Mem, step: HeapStep, limit: nat): Mem
    requires HeapValid(m, limit) && Below(step, limit)
  {
    match step
    case Brk(newBrk, host) => SetBrkSpec(m, newBrk, host).mem
    case Store(addr, data) => m.(segments := WriteSpec(m.segments, addr, data).segments)
  }

  /** Appending a segment apart from the others adds its bytes and leaves every mapped byte alone. */
  lemma AppendSegment(segs: seq<Segment>, s: Segment)
    requires forall i :: 0 <= i < |segs| ==> Apart(segs[i], s)
    requires Disjoint(segs)
    ensures Disjoint(segs + [s])
    ensures forall a: nat :: ByteAt(segs + [s], a) ==
                             if s.Contains(a) then Some(s.data[a - s.addr]) else ByteAt(segs, a)
  {
    var all := segs + [s];
    forall a: nat
      ensures ByteAt(all, a) == if s.Contains(a) then Some(s.data[a - s.addr]) else ByteAt(segs, a)
    {
      var i := Locate(segs, a);
      if i < |segs| {
        assert all[i].Contains(a);
        DisjointLocate(all, i, a);
      } else if s.Contains(a) {
        assert all[|segs|].Contains(a);
        assert forall j :: 0 <= j < |segs| ==> all[j] == segs[j];
      } else {
        assert forall j :: 0 <= j < |all| ==> !all[j].Contains(a);
      }
    }
  }

  /**
   An anonymous mapping apart from the others: refused, or of size 0, it changes nothing and gives no address;
   granted, it gives the requested address, or the host's own when 0 was requested, and adds exactly a range of
   zero bytes there.
   */
  lemma MapExact(m: Mem, target: uint64, size: nat, host: HostMap)
    requires HostRange(target, size, host) && Disjoint(m.segments)
    requires host.Granted? ==> forall i :: 0 <= i < |m.segments| ==>
               var a := if target != 0 then target else host.ptr;
               m.segments[i].End() <= a || a + size <= m.segments[i].addr
    ensures var r := MapSpec(m, target, size, host);
            if size == 0 || host.Refused? then r == MapResult(m, None)
            else
              var a := if target != 0 then target else host.ptr;
              && r.addr == Some(a) && r.mem == m.(segments := r.mem.segments) && Disjoint(r.mem.segments)
              && forall x: nat :: ByteAt(r.mem.segments, x) == if a <= x < a + size then Some(0) else ByteAt(m.segments, x)
  {
    if size > 0 && host.Granted? {
      AppendSegment(m.segments, Mapping(MapAddress(target, host), Zeros(size)));
    }
  }

  lemma GrowKeeps(m: Mem, newBrk: uint64, host: HostMap, limit: nat)
    requires HeapValid(m, limit) && AlignUpPage(newBrk) <= limit
    requires newBrk > m.brkMappedEnd && host.Granted?
    ensures var m' := SetBrkSpec(m, newBrk, host).mem;
            && HeapValid(m', limit)
            && (forall a: nat :: ByteAt(m.segments, a).Some? ==> ByteAt(m'.segments, a) == ByteAt(m.segments, a))
            && (forall a: nat :: m.brkMappedEnd <= a < m'.brkMappedEnd ==> ByteAt(m'.segments, a) == Some(0))
  {
    AlignUpProperties(newBrk);
    var end := AlignUpPage(newBrk);
    var seg: Segment := Mapping(m.brkMappedEnd, Zeros(end - m.brkMappedEnd));
    var m' := SetBrkSpec(m, newBrk, host).mem;
    forall i | 0 <= i < |m.segments|
      ensures Apart(m.segments[i], seg)
    {
      assert InHeap(m, m.segments[i]) || OutsideHeap(m, m.segments[i], limit);
    }
    AppendSegment(m.segments, seg);
    assert m'.segments == m.segments + [seg];
    forall a: nat | ByteAt(m.segments, a).Some?
      ensures ByteAt(m'.segments, a) == ByteAt(m.segments, a)
    {
      assert Apart(m.segments[Locate(m.segments, a)], seg);
    }
    forall i | 0 <= i < |m'.segments|
      ensures InHeap(m', m'.segments[i]) || OutsideHeap(m', m'.segments[i], limit)
    {
      if i < |m.segments| {
        assert InHeap(m, m.segments[i]) || OutsideHeap(m, m.segments[i], limit);
      }
    }
  }

  lemma StepKeeps(m: Mem, step: HeapStep, limit: nat)
    requires HeapValid(m, limit) && Below(step, limit)
    ensures HeapValid(TakeStep(m, step, limit), limit)
    ensures TakeStep(m, step, limit).brkBase == m.brkBase
    ensures TakeStep(m, step, limit).brkMappedEnd >= m.brkMappedEnd
    ensures forall a: nat :: ByteAt(m.segments, a).Some? && !Stores(step, a) ==>
              ByteAt(TakeStep(m, step, limit).segments, a) == ByteAt(m.segments, a)
  {
    var m' := TakeStep(m, step, limit);
    match step {
      case Brk(newBrk, host) =>
        if newBrk > m.brkMappedEnd && host.Granted? {
          GrowKeeps(m, newBrk, host, limit);
        }
      case Store(addr, data) =>
        WriteExact(m.segments, addr, data);
        PokeDisjoint(m.segments, addr, data[..MappedPrefix(m.segments, addr, |data|)]);
        forall i | 0 <= i < |m'.segments|
          ensures InHeap(m', m'.segments[i]) || OutsideHeap(m', m'.segments[i], limit)
        {
          assert InHeap(m, m.segments[i]) || OutsideHeap(m, m.segments[i], limit);
        }
    }
  }

  predicate Stores(step: HeapStep, a: nat) {
    step.Store? && step.addr <= a < step.addr + |step.data|
  }

  predicate Untouched(steps: seq<HeapStep>, a: nat) {
    forall i :: 0 <= i < |steps| ==> !Stores(steps[i], a)
  }

  /** The memory after a whole sequence of steps. */
  function Run(m: Mem, steps: seq<HeapStep>, limit: nat): (m': Mem)
    requires HeapValid(m, limit) && forall i :: 0 <= i < |steps| ==> Below(steps[i], limit)
    ensures HeapValid(m', limit)
    decreases |steps|
  {
    if steps == [] then m
    else
      StepKeeps(m, steps[0], limit);
      Run(TakeStep(m, steps[0], limit), steps[1..], limit)
  }

  /**
   For any sequence of break requests below the first fixed mapping, interleaved with any stores: the
   heap stays well formed, its base is fixed and its mapped end never retreats; a byte that was mapped
   keeps its value unless one of the stores covers it, so nothing is lost by growing or by shrinking
   and regrowing; and every access below the break succeeds.
   */
  lemma {:induction false} HeapSurvives(m: Mem, steps: seq<HeapStep>, limit: nat)
    requires HeapValid(m, limit) && forall i :: 0 <= i < |steps| ==> Below(steps[i], limit)
    ensures var m' := Run(m, steps, limit);
            && HeapValid(m', limit)
            && m'.brkBase == m.brkBase && m'.brkMappedEnd >= m.brkMappedEnd
            && (forall a: nat :: ByteAt(m.segments, a).Some? && Untouched(steps, a) ==>
                  ByteAt(m'.segments, a) == ByteAt(m.segments, a))
            && (forall a: nat, n: nat :: m'.brkBase <= a && a + n <= m'.brkCurrent ==>
                  ReadSpec(m'.segments, a, n).Some?)
    decreases |steps|
  {
    if steps != [] {
      StepKeeps(m, steps[0], limit);
      var m1 := TakeStep(m, steps[0], limit);
      HeapSurvives(m1, steps[1..], limit);
      var m' := Run(m, steps, limit);
      assert m' == Run(m1, steps[1..], limit);
      forall a: nat | ByteAt(m.segments, a).Some? && Untouched(steps, a)
        ensures ByteAt(m'.segments, a) == ByteAt(m.segments, a)
      {
        assert forall i :: 0 <= i < |steps[1..]| ==> steps[1..][i] == steps[i + 1];
        assert !Stores(steps[0], a);
      }
    }
  }

  /** The answer to a break request, and that a refused mapping changes nothing at all. */
  lemma BrkAnswer(m: Mem, newBrk: uint64, host: HostMap, limit: nat)
    requires HeapValid(m, limit) && AlignUpPage(newBrk) <= limit
    ensures var r := SetBrkSpec(m, newBrk, host);
            && (r.addr.None? <==> newBrk > m.brkMappedEnd && host.Refused?)
            && (r.addr.None? ==> r.mem == m)
            && (r.addr.Some? ==> r.addr.value == r.mem.brkCurrent)
            && (r.addr.Some? && newBrk >= m.brkBase ==> r.mem.brkCurrent == newBrk)
            && (newBrk < m.brkBase ==> r.mem == m)
            && (r.mem.brkMappedEnd == if r.addr.Some? && newBrk > m.brkMappedEnd then AlignUpPage(newBrk) else m.brkMappedEnd)
  {
    AlignUpProperties(newBrk);
  }

  /** Setting the base above every loaded byte starts a well-formed, empty heap. */
  lemma BaseStartsHeap(m: Mem, base: nat, limit: nat)
    requires 0 < base && AlignUpPage(base) <= limit < TWO64 && Disjoint(m.segments)
    requires forall i :: 0 <= i < |m.segments| ==> m.segments[i].End() <= AlignUpPage(base) || limit <= m.segments[i].addr
    ensures var m' := SetBrkBaseSpec(m, base);
            && HeapValid(m', limit)
            && m'.brkBase == m'.brkCurrent == m'.brkMappedEnd && base <= m'.brkBase < base + 4096
            && m'.segments == m.segments && m'.mmapCurrent == m.mmapCurrent
  {
    AlignUpProperties(base);
  }

  // ---------- unmapping ----------

  /** Removing a segment unmaps exactly its bytes. */
  lemma RemoveSegment(segs: seq<Segment>, i: nat)
    requires Disjoint(segs) && i < |segs|
    ensures Disjoint(segs[..i] + segs[i + 1..])
    ensures forall a: nat :: ByteAt(segs[..i] + segs[i + 1..], a) ==
                             if segs[i].Contains(a) then None else ByteAt(segs, a)
  {
    var rest := segs[..i] + segs[i + 1..];
    assert forall j :: 0 <= j < |rest| ==> rest[j] == segs[if j < i then j else j + 1];
    forall j, k | 0 <= j < k < |rest|
      ensures Apart(rest[j], rest[k])
    {
      assert Apart(segs[if j < i then j else j + 1], segs[if k < i then k else k + 1]);
    }
    forall a: nat
      ensures ByteAt(rest, a) == if segs[i].Contains(a) then None else ByteAt(segs, a)
    {
      RemovedAt(segs, i, a);
    }
  }

  lemma RemovedAt(segs: seq<Segment>, i: nat, a: nat)
    requires Disjoint(segs) && i < |segs| && Disjoint(segs[..i] + segs[i + 1..])
    ensures ByteAt(segs[..i] + segs[i + 1..], a) == if segs[i].Contains(a) then None else ByteAt(segs, a)
  {
    var rest := segs[..i] + segs[i + 1..];
    assert forall j :: 0 <= j < |rest| ==> rest[j] == segs[if j < i then j else j + 1];
    var j := Locate(segs, a);
    if segs[i].Contains(a) {
      forall k | 0 <= k < |rest|
        ensures !rest[k].Contains(a)
      {
        var k' := if k < i then k else k + 1;
        assert Apart(segs[if k' < i then k' else i], segs[if k' < i then i else k']);
      }
    } else if j < |segs| {
      var j' := if j < i then j else j - 1;
      assert rest[j'] == segs[j];
      DisjointLocate(rest, j', a);
    } else {
      assert forall k :: 0 <= k < |rest| ==> !rest[k].Contains(a);
    }
  }
}
