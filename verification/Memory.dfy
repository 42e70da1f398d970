/**
 Guest memory. The functions give its meaning as a flat partial map from addresses to bytes;
 the class runs the segment-by-segment loops and is proved to act as that map.
 */
module Memory {
  import opened Words

  const PAGE_SIZE: int := 4096

  function AlignDownPage(addr: nat): nat { addr - addr % PAGE_SIZE }

  function AlignUpPage(addr: nat): nat { AlignDownPage(addr + PAGE_SIZE - 1) }

  datatype Mapping = Mapping(addr: nat, data: seq<byte>) {
    function End(): nat { addr + |data| }

    predicate Contains(a: nat) { addr <= a < End() }
  }

  /** A mapped range; its end is a 64-bit address, because lookups compute it as one. */
  type Segment = m: Mapping | m.End() < TWO64 witness Mapping(0, [])

  datatype Mem = Mem(
    segments: seq<Segment>, brkBase: uint64, brkCurrent: uint64, brkMappedEnd: uint64, mmapCurrent: uint64)

  // ---------- the flat view ----------

  /** Index of the first segment that contains `a`, or the number of segments. */
  function Locate(segs: seq<Segment>, a: nat): (i: nat)
    ensures i <= |segs|
    ensures i < |segs| ==> segs[i].Contains(a)
    ensures forall j :: 0 <= j < i ==> !segs[j].Contains(a)
  {
    if segs == [] then 0
    else if segs[0].Contains(a) then 0
    else 1 + Locate(segs[1..], a)
  }

  /** The byte that a one-byte read of `a` sees. */
  function ByteAt(segs: seq<Segment>, a: nat): Option<byte> {
    var i := Locate(segs, a);
    if i < |segs| then Some(segs[i].data[a - segs[i].addr]) else None
  }

  predicate Mapped(segs: seq<Segment>, a: nat, n: nat) {
    forall x :: a <= x < a + n ==> ByteAt(segs, x).Some?
  }

  /** Number of leading bytes of `[a, a + n)` before the first unmapped one. */
  function MappedPrefix(segs: seq<Segment>, a: nat, n: nat): (k: nat)
    ensures k <= n
    ensures Mapped(segs, a, k)
    ensures k < n ==> ByteAt(segs, a + k) == None
    decreases n
  {
    if n == 0 || ByteAt(segs, a).None? then 0 else 1 + MappedPrefix(segs, a + 1, n - 1)
  }

  function ReadSpec(segs: seq<Segment>, a: nat, n: nat): (r: Option<seq<byte>>)
    ensures r.Some? <==> Mapped(segs, a, n)
    ensures r.Some? ==> |r.value| == n
    ensures r.Some? ==> forall k :: 0 <= k < n ==> ByteAt(segs, a + k) == Some(r.value[k])
    ensures r.Some? && n > 0 ==> a + n < TWO64
  {
    if MappedPrefix(segs, a, n) == n then
      assert n > 0 ==> ByteAt(segs, a + (n - 1)).Some?;
      Some(seq(n, k requires 0 <= k < n => ByteAt(segs, a + k).value))
    else None
  }

  function PokeSegment(s: Segment, a: nat, d: seq<byte>): Segment {
    s.(data := seq(|s.data|, k requires 0 <= k < |s.data| =>
      if a <= s.addr + k < a + |d| then d[s.addr + k - a] else s.data[k]))
  }

  /** Every mapped byte of `[a, a + |d|)` replaced by the corresponding byte of `d`. */
  function Poke(segs: seq<Segment>, a: nat, d: seq<byte>): seq<Segment> {
    seq(|segs|, i requires 0 <= i < |segs| => PokeSegment(segs[i], a, d))
  }

  datatype WriteResult = WriteResult(segments: seq<Segment>, ok: bool)

  /** A write stores the longest mapped prefix and succeeds when that is everything. */
  function WriteSpec(segs: seq<Segment>, a: nat, d: seq<byte>): WriteResult {
    var k := MappedPrefix(segs, a, |d|);
    WriteResult(Poke(segs, a, d[..k]), k == |d|)
  }

  lemma {:induction false} LocatePoke(segs: seq<Segment>, a: nat, d: seq<byte>, x: nat)
    ensures Locate(Poke(segs, a, d), x) == Locate(segs, x)
  {
    var p := Poke(segs, a, d);
    var i, j := Locate(segs, x), Locate(p, x);
    assert forall k :: 0 <= k < |segs| ==> (p[k].Contains(x) <==> segs[k].Contains(x));
    assert i < |segs| ==> p[i].Contains(x);
    assert j < |p| ==> segs[j].Contains(x);
  }

  lemma PokeAt(segs: seq<Segment>, a: nat, d: seq<byte>, x: nat)
    ensures ByteAt(segs, x).None? ==> ByteAt(Poke(segs, a, d), x).None?
    ensures ByteAt(segs, x).Some? && a <= x < a + |d| ==> ByteAt(Poke(segs, a, d), x) == Some(d[x - a])
    ensures !(a <= x < a + |d|) ==> ByteAt(Poke(segs, a, d), x) == ByteAt(segs, x)
  {
    LocatePoke(segs, a, d, x);
  }

  /**
   A write acts on the flat map alone: it succeeds exactly when its whole range is mapped; it stores
   exactly the longest mapped prefix; it changes nothing else and maps or unmaps nothing.
   */
  lemma WriteExact(segs: seq<Segment>, a: nat, d: seq<byte>)
    ensures var r := WriteSpec(segs, a, d);
            var k := MappedPrefix(segs, a, |d|);
            && (r.ok <==> Mapped(segs, a, |d|))
            && (forall x :: a <= x < a + k ==> ByteAt(r.segments, x) == Some(d[x - a]))
            && (forall x: nat :: !(a <= x < a + k) ==> ByteAt(r.segments, x) == ByteAt(segs, x))
  {
    var k := MappedPrefix(segs, a, |d|);
    var r := WriteSpec(segs, a, d);
    forall x: nat
      ensures a <= x < a + k ==> ByteAt(r.segments, x) == Some(d[x - a])
      ensures !(a <= x < a + k) ==> ByteAt(r.segments, x) == ByteAt(segs, x)
    {
      PokeAt(segs, a, d[..k], x);
    }
    if k < |d| {
      assert ByteAt(segs, a + k).None?;
    }
  }

  lemma ReadUnique(segs: seq<Segment>, a: nat, d: seq<byte>)
    requires forall k :: 0 <= k < |d| ==> ByteAt(segs, a + k) == Some(d[k])
    ensures ReadSpec(segs, a, |d|) == Some(d)
  {
    forall x | a <= x < a + |d|
      ensures ByteAt(segs, x).Some?
    {
      assert ByteAt(segs, a + (x - a)) == Some(d[x - a]);
    }
    assert ReadSpec(segs, a, |d|).value == d;
  }

  /** Reading depends only on the bytes in the range. */
  lemma ReadCongruence(m: seq<Segment>, m': seq<Segment>, a: nat, n: nat)
    requires forall x :: a <= x < a + n ==> ByteAt(m', x) == ByteAt(m, x)
    ensures ReadSpec(m', a, n) == ReadSpec(m, a, n)
  {
    if Mapped(m, a, n) {
      var d := ReadSpec(m, a, n).value;
      assert forall k :: 0 <= k < |d| ==> ByteAt(m', a + k) == Some(d[k]);
      ReadUnique(m', a, d);
    } else {
      var x :| a <= x < a + n && ByteAt(m, x).None?;
      assert ByteAt(m', x).None?;
    }
  }

  /** What was written is read back, and reads of other ranges are unaffected. */
  lemma ReadAfterWrite(segs: seq<Segment>, a: nat, d: seq<byte>, b: nat, n: nat)
    requires WriteSpec(segs, a, d).ok
    ensures ReadSpec(WriteSpec(segs, a, d).segments, a, |d|) == Some(d)
    ensures b + n <= a || a + |d| <= b ==> ReadSpec(WriteSpec(segs, a, d).segments, b, n) == ReadSpec(segs, b, n)
  {
    WriteExact(segs, a, d);
    var m' := WriteSpec(segs, a, d).segments;
    ReadUnique(m', a, d);
    if b + n <= a || a + |d| <= b {
      ReadCongruence(segs, m', b, n);
    }
  }

  /** The bytes up to the first NUL, if every byte up to and including it is mapped. */
  function ReadStringSpec(segs: seq<Segment>, a: nat): Option<seq<byte>>
    decreases TWO64 - a
  {
    if ByteAt(segs, a).None? then None
    else if ByteAt(segs, a).value == 0 then Some([])
    else
      var rest := ReadStringSpec(segs, a + 1);
      if rest.None? then None else Some([ByteAt(segs, a).value] + rest.value)
  }

  lemma {:induction false} ReadStringExact(segs: seq<Segment>, a: nat, s: seq<byte>)
    requires 0 !in s
    ensures ReadStringSpec(segs, a) == Some(s) <==> ReadSpec(segs, a, |s| + 1) == Some(s + [0])
    decreases |s|
  {
    if ReadSpec(segs, a, |s| + 1) == Some(s + [0]) {
      ReadStringForward(segs, a, s);
    }
    if ReadStringSpec(segs, a) == Some(s) {
      ReadStringBack(segs, a, s);
      ReadUnique(segs, a, s + [0]);
    }
  }

  lemma {:induction false} ReadStringForward(segs: seq<Segment>, a: nat, s: seq<byte>)
    requires 0 !in s
    requires ReadSpec(segs, a, |s| + 1) == Some(s + [0])
    ensures ReadStringSpec(segs, a) == Some(s)
    decreases |s|
  {
    var t := s + [0];
    assert forall k :: 0 <= k < |t| ==> ByteAt(segs, a + k) == Some(t[k]);
    assert ByteAt(segs, a + 0) == Some(t[0]);
    if s != [] {
      var u := s[1..] + [0];
      forall k | 0 <= k < |u|
        ensures ByteAt(segs, a + 1 + k) == Some(u[k])
      {
        assert ByteAt(segs, a + (k + 1)) == Some(t[k + 1]);
      }
      ReadUnique(segs, a + 1, u);
      ReadStringForward(segs, a + 1, s[1..]);
      assert s == [s[0]] + s[1..];
    }
  }

  lemma {:induction false} ReadStringBack(segs: seq<Segment>, a: nat, s: seq<byte>)
    requires ReadStringSpec(segs, a) == Some(s)
    ensures forall k :: 0 <= k < |s| + 1 ==> ByteAt(segs, a + k) == Some((s + [0])[k])
    decreases |s|
  {
    if s != [] {
      var rest := ReadStringSpec(segs, a + 1).value;
      assert s == [ByteAt(segs, a).value] + rest;
      assert rest == s[1..];
      ReadStringBack(segs, a + 1, s[1..]);
      forall k | 0 <= k < |s| + 1
        ensures ByteAt(segs, a + k) == Some((s + [0])[k])
      {
        if k > 0 {
          assert ByteAt(segs, a + 1 + (k - 1)) == Some((s[1..] + [0])[k - 1]);
        }
      }
    }
  }

  // ---------- words in memory ----------

  function Read64(segs: seq<Segment>, a: nat): Option<uint64> {
    var r := ReadSpec(segs, a, 8);
    if r.Some? then Some(FromLe64(r.value)) else None
  }

  lemma Read64AfterWrite(segs: seq<Segment>, a: nat, v: uint64)
    requires Mapped(segs, a, 8)
    ensures WriteSpec(segs, a, Le(v, 8)).ok
    ensures Read64(WriteSpec(segs, a, Le(v, 8)).segments, a) == Some(v)
  {
    WriteExact(segs, a, Le(v, 8));
    ReadAfterWrite(segs, a, Le(v, 8), a, 0);
    LeRoundTrip64(v);
  }

  // ---------- segments that do not overlap ----------

  predicate Apart(s: Segment, t: Segment) { s.End() <= t.addr || t.End() <= s.addr }

  predicate Disjoint(segs: seq<Segment>) {
    forall i, j :: 0 <= i < j < |segs| ==> Apart(segs[i], segs[j])
  }

  lemma DisjointLocate(segs: seq<Segment>, i: nat, x: nat)
    requires Disjoint(segs) && i < |segs| && segs[i].Contains(x)
    ensures Locate(segs, x) == i
  {
    var j := Locate(segs, x);
    assert j < i ==> Apart(segs[j], segs[i]);
  }

  lemma PokeDisjoint(segs: seq<Segment>, a: nat, d: seq<byte>)
    requires Disjoint(segs)
    ensures Disjoint(Poke(segs, a, d))
  {
    var p := Poke(segs, a, d);
    forall i, j | 0 <= i < j < |p|
      ensures Apart(p[i], p[j])
    {
      assert Apart(segs[i], segs[j]);
    }
  }

  /** The same mapped ranges, whatever the bytes. */
  predicate SameShape(segs: seq<Segment>, segs': seq<Segment>) {
    |segs| == |segs'| && forall i :: 0 <= i < |segs| ==> segs'[i].addr == segs[i].addr && segs'[i].End() == segs[i].End()
  }

  lemma WriteKeepsShape(segs: seq<Segment>, a: nat, d: seq<byte>)
    ensures SameShape(segs, WriteSpec(segs, a, d).segments)
    ensures Disjoint(segs) ==> Disjoint(WriteSpec(segs, a, d).segments)
  {
    if Disjoint(segs) {
      PokeDisjoint(segs, a, d[..MappedPrefix(segs, a, |d|)]);
    }
  }

  lemma ShapeTransitive(a: seq<Segment>, b: seq<Segment>, c: seq<Segment>)
    requires SameShape(a, b) && SameShape(b, c)
    ensures SameShape(a, c)
  {
  }

  lemma PokeNothing(segs: seq<Segment>, a: nat)
    ensures Poke(segs, a, []) == segs
  {
    forall i | 0 <= i < |segs|
      ensures PokeSegment(segs[i], a, []) == segs[i]
    {
      assert PokeSegment(segs[i], a, []).data == segs[i].data;
    }
  }

  /** One chunk of the write loop, inside segment `i`, extends the poked prefix from `w` to `w + n` bytes. */
  lemma PokeChunk(segs: seq<Segment>, a: nat, d: seq<byte>, w: nat, n: nat, i: nat)
    requires Disjoint(segs) && i < |segs| && w + n <= |d|
    requires segs[i].addr <= a + w && a + w + n <= segs[i].End()
    ensures var p := Poke(segs, a, d[..w]);
            var off := a + w - segs[i].addr;
            p[i := p[i].(data := p[i].data[..off] + d[w..w + n] + p[i].data[off + n..])] == Poke(segs, a, d[..w + n])
  {
    var p, q := Poke(segs, a, d[..w]), Poke(segs, a, d[..w + n]);
    var off := a + w - segs[i].addr;
    var data := p[i].data[..off] + d[w..w + n] + p[i].data[off + n..];
    assert data == q[i].data;
    forall j | 0 <= j < |segs| && j != i
      ensures p[j] == q[j]
    {
      assert Apart(segs[if i < j then i else j], segs[if i < j then j else i]);
      assert p[j].data == q[j].data;
    }
    assert p[i := p[i].(data := data)] == q;
  }

  // ---------- mapping and the break ----------

  /** What the host's mapping call does: it fails, or returns zeroed bytes at an address of its own. */
  datatype HostMap = Refused | Granted(ptr: uint64)

  datatype MapResult = MapResult(mem: Mem, addr: Option<uint64>)

  function Zeros(n: nat): (z: seq<byte>)
    ensures |z| == n && forall i :: 0 <= i < n ==> z[i] == 0
  {
    seq(n, i => 0)
  }

  function MapAddress(target: uint64, host: HostMap): uint64
    requires host.Granted?
  {
    if target != 0 then target else host.ptr
  }

  /** A granted range ends below 2^64, as every host range does. */
  predicate HostRange(target: uint64, size: nat, host: HostMap) {
    host.Granted? ==> MapAddress(target, host) + size < TWO64
  }

  function MapSpec(m: Mem, target: uint64, size: nat, host: HostMap): MapResult
    requires HostRange(target, size, host)
  {
    if size == 0 || host.Refused? then MapResult(m, None)
    else
      var a := MapAddress(target, host);
      var seg: Segment := Mapping(a, Zeros(size));
      MapResult(m.(segments := m.segments + [seg]), Some(a))
  }

  function SetBrkBaseSpec(m: Mem, base: nat): Mem
    requires AlignUpPage(base) < TWO64
  {
    var b := AlignUpPage(base);
    m.(brkBase := b, brkCurrent := b, brkMappedEnd := b)
  }

  predicate BrkRange(m: Mem, newBrk: uint64, host: HostMap) {
    && AlignUpPage(newBrk) < TWO64
    && (newBrk > m.brkMappedEnd ==> HostRange(m.brkMappedEnd, AlignUpPage(newBrk) - m.brkMappedEnd, host))
  }

  function SetBrkSpec(m: Mem, newBrk: uint64, host: HostMap): MapResult
    requires BrkRange(m, newBrk, host)
  {
    if newBrk == 0 || newBrk < m.brkBase then MapResult(m, Some(m.brkCurrent))
    else if newBrk > m.brkMappedEnd then
      var end := AlignUpPage(newBrk);
      var grown := MapSpec(m, m.brkMappedEnd, end - m.brkMappedEnd, host);
      if grown.addr.None? then MapResult(m, None)
      else MapResult(grown.mem.(brkMappedEnd := end, brkCurrent := newBrk), Some(newBrk))
    else MapResult(m.(brkCurrent := newBrk), Some(newBrk))
  }

  /** Index of the first segment that starts at `a`, or the number of segments. */
  function StartsAt(segs: seq<Segment>, a: nat): (i: nat)
    ensures i <= |segs|
    ensures i < |segs| ==> segs[i].addr == a
    ensures forall j :: 0 <= j < i ==> segs[j].addr != a
  {
    if segs == [] || segs[0].addr == a then 0 else 1 + StartsAt(segs[1..], a)
  }

  // ---------- the memory manager ----------

  class MemoryManager {
    var segments: seq<Segment>
    var brkBase: uint64
    var brkCurrent: uint64
    var brkMappedEnd: uint64
    var mmapCurrent: uint64

    function State(): Mem
      reads this
    {
      Mem(segments, brkBase, brkCurrent, brkMappedEnd, mmapCurrent)
    }

    predicate Valid()
      reads this
    {
      Disjoint(segments)
    }

    constructor ()
      ensures Valid() && State() == Mem([], 0, 0, 0, 0x7000_0000_0000)
    {
      segments := [];
      brkBase, brkCurrent, brkMappedEnd := 0, 0, 0;
      mmapCurrent := 0x7000_0000_0000;
    }

    /** Adopts a whole memory state, as a system call leaves it. */
    method Install(m: Mem)
      requires Disjoint(m.segments)
      modifies this
      ensures Valid() && State() == m
    {
      segments := m.segments;
      brkBase, brkCurrent, brkMappedEnd := m.brkBase, m.brkCurrent, m.brkMappedEnd;
      mmapCurrent := m.mmapCurrent;
    }

    /** Pushes a new zeroed segment, or reports failure and changes nothing. */
    method MapAnonymous(target: uint64, size: nat, host: HostMap) returns (addr: Option<uint64>)
      requires HostRange(target, size, host)
      modifies this
      ensures State() == MapSpec(old(State()), target, size, host).mem
      ensures addr == MapSpec(old(State()), target, size, host).addr
    {
      if size == 0 || host.Refused? {
        return None;
      }
      var a := MapAddress(target, host);
      segments := segments + [Mapping(a, Zeros(size))];
      return Some(a);
    }

    method SetBrkBase(base: nat)
      requires AlignUpPage(base) < TWO64
      modifies this
      ensures State() == SetBrkBaseSpec(old(State()), base)
    {
      var aligned := AlignUpPage(base);
      brkBase, brkCurrent, brkMappedEnd := aligned, aligned, aligned;
    }

    method SetBrk(newBrk: uint64, host: HostMap) returns (r: Option<uint64>)
      requires BrkRange(State(), newBrk, host)
      modifies this
      ensures State() == SetBrkSpec(old(State()), newBrk, host).mem
      ensures r == SetBrkSpec(old(State()), newBrk, host).addr
    {
      if newBrk == 0 || newBrk < brkBase {
        return Some(brkCurrent);
      }
      if newBrk > brkMappedEnd {
        var newMapped := AlignUpPage(newBrk);
        var expandSize := newMapped - brkMappedEnd;
        if expandSize > 0 {
          var mapped := MapAnonymous(brkMappedEnd, expandSize, host);
          if mapped.None? {
            return None;
          }
          brkMappedEnd := newMapped;
        }
      }
      brkCurrent := newBrk;
      return Some(brkCurrent);
    }

    /**
     Drops the first segment that starts at the page of `addr`, whatever its size; `host` says whether the
     host's own unmapping, which comes after, succeeds.
     */
    method Munmap(addr: uint64, host: bool) returns (ok: bool)
      modifies this
      ensures var i := StartsAt(old(segments), AlignDownPage(addr));
              var found := i < |old(segments)|;
              && ok == (found && host)
              && State() == old(State()).(segments :=
                   if found then old(segments)[..i] + old(segments)[i + 1..] else old(segments))
    {
      var start := AlignDownPage(addr);
      var i := 0;
      while i < |segments| && segments[i].addr != start
        invariant 0 <= i <= |segments|
        invariant forall j :: 0 <= j < i ==> segments[j].addr != start
      {
        i := i + 1;
      }
      if i == |segments| {
        return false;
      }
      segments := segments[..i] + segments[i + 1..];
      return host;
    }

    method Write(addr: uint64, data: seq<byte>) returns (ok: bool)
      requires Valid()
      modifies this
      ensures Valid()
      ensures ok == WriteSpec(old(segments), addr, data).ok
      ensures State() == old(State()).(segments := WriteSpec(old(segments), addr, data).segments)
    {
      ghost var before := segments;
      PokeNothing(before, addr);
      assert data[..0] == [];
      var written := 0;
      while written < |data|
        invariant 0 <= written <= |data|
        invariant Mapped(before, addr, written)
        invariant segments == Poke(before, addr, data[..written])
        invariant State() == old(State()).(segments := segments)
      {
        var cur := addr + written;
        var remaining := |data| - written;
        var chunk := 0;
        var i := 0;
        while i < |segments|
          invariant 0 <= i <= |segments| && chunk == 0
          invariant segments == Poke(before, addr, data[..written])
          invariant State() == old(State()).(segments := segments)
          invariant forall j :: 0 <= j < i ==> !segments[j].Contains(cur)
        {
          var seg := segments[i];
          if seg.Contains(cur) {
            var offset := cur - seg.addr;
            var avail := |seg.data| - offset;
            var toWrite := if remaining < avail then remaining else avail;
            PokeChunk(before, addr, data, written, toWrite, i);
            MappedInSegment(before, i, cur, toWrite);
            var slice := seg.data[..offset] + data[written..written + toWrite] + seg.data[offset + toWrite..];
            segments := segments[i := seg.(data := slice)];
            chunk := toWrite;
            break;
          }
          i := i + 1;
        }
        if chunk == 0 {
          LocatePoke(before, addr, data[..written], cur);
          PrefixIs(before, addr, |data|, written);
          PokeDisjoint(before, addr, data[..written]);
          return false;
        }
        written := written + chunk;
      }
      PrefixIs(before, addr, |data|, |data|);
      PokeDisjoint(before, addr, data);
      assert data[..|data|] == data;
      return true;
    }

    method Read(addr: uint64, len: nat) returns (r: Option<seq<byte>>)
      requires Valid()
      ensures r == ReadSpec(segments, addr, len)
    {
      if len == 0 {
        ReadUnique(segments, addr, []);
        return Some([]);
      }
      var i := 0;
      while i < |segments|
        invariant 0 <= i <= |segments|
      {
        var seg := segments[i];
        if addr >= seg.addr && addr + len <= seg.End() {
          var offset := addr - seg.addr;
          var bytes := seg.data[offset..offset + len];
          SegmentBytes(segments, i, addr, bytes);
          ReadUnique(segments, addr, bytes);
          return Some(bytes);
        }
        i := i + 1;
      }
      var buf: seq<byte> := [];
      while |buf| < len
        invariant |buf| <= len
        invariant forall k :: 0 <= k < |buf| ==> ByteAt(segments, addr + k) == Some(buf[k])
      {
        var cur := addr + |buf|;
        var remaining := len - |buf|;
        var chunk: seq<byte> := [];
        i := 0;
        while i < |segments|
          invariant 0 <= i <= |segments| && chunk == []
          invariant forall j :: 0 <= j < i ==> !segments[j].Contains(cur)
        {
          var seg := segments[i];
          if seg.Contains(cur) {
            var offset := cur - seg.addr;
            var avail := |seg.data| - offset;
            var toRead := if remaining < avail then remaining else avail;
            chunk := seg.data[offset..offset + toRead];
            SegmentBytes(segments, i, cur, chunk);
            break;
          }
          i := i + 1;
        }
        if chunk == [] {
          assert ByteAt(segments, cur).None?;
          return None;
        }
        ghost var done := buf;
        buf := buf + chunk;
        forall k | 0 <= k < |buf|
          ensures ByteAt(segments, addr + k) == Some(buf[k])
        {
          if k >= |done| {
            assert ByteAt(segments, cur + (k - |done|)) == Some(chunk[k - |done|]);
          }
        }
      }
      ReadUnique(segments, addr, buf);
      return Some(buf);
    }

    method ReadString(addr: uint64) returns (r: Option<seq<byte>>)
      requires Valid()
      ensures r == ReadStringSpec(segments, addr)
    {
      var cur := addr;
      var bytes: seq<byte> := [];
      assert forall s: seq<byte> :: bytes + s == s;
      while true
        invariant addr <= cur < TWO64
        invariant ReadStringSpec(segments, addr) ==
                  var rest := ReadStringSpec(segments, cur);
                  if rest.None? then None else Some(bytes + rest.value)
        decreases TWO64 - cur
      {
        var b := Read(cur, 1);
        if b.None? {
          var x :| cur <= x < cur + 1 && ByteAt(segments, x).None?;
          assert x == cur;
          return None;
        }
        assert ByteAt(segments, cur + 0) == Some(b.value[0]);
        if b.value[0] == 0 {
          assert bytes + [] == bytes;
          return Some(bytes);
        }
        ghost var rest := ReadStringSpec(segments, cur + 1);
        assert rest.Some? ==> bytes + ([b.value[0]] + rest.value) == (bytes + [b.value[0]]) + rest.value;
        bytes := bytes + [b.value[0]];
        cur := cur + 1;
      }
    }
  }

  // ---------- loop steps ----------

  lemma MappedInSegment(segs: seq<Segment>, i: nat, a: nat, n: nat)
    requires i < |segs| && segs[i].addr <= a && a + n <= segs[i].End()
    ensures Mapped(segs, a, n)
  {
    forall x | a <= x < a + n
      ensures ByteAt(segs, x).Some?
    {
      assert segs[i].Contains(x);
    }
  }

  lemma SegmentBytes(segs: seq<Segment>, i: nat, a: nat, d: seq<byte>)
    requires Disjoint(segs) && i < |segs|
    requires segs[i].addr <= a && a + |d| <= segs[i].End()
    requires d == segs[i].data[a - segs[i].addr..a - segs[i].addr + |d|]
    ensures forall k :: 0 <= k < |d| ==> ByteAt(segs, a + k) == Some(d[k])
  {
    forall k | 0 <= k < |d|
      ensures ByteAt(segs, a + k) == Some(d[k])
    {
      DisjointLocate(segs, i, a + k);
    }
  }

  lemma PrefixIs(segs: seq<Segment>, a: nat, n: nat, k: nat)
    requires k <= n && Mapped(segs, a, k)
    requires k < n ==> ByteAt(segs, a + k).None?
    ensures MappedPrefix(segs, a, n) == k
  {
    var p := MappedPrefix(segs, a, n);
  }
}
