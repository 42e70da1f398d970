/** Which addresses a change to memory may touch, and what stays readable around it. */
module Footprint {
  import opened Words
  import opened Memory

  /** The flat map is unchanged outside `[lo, hi)`, and the same addresses are mapped. */
  ghost predicate ChangesOnly(m: seq<Segment>, m': seq<Segment>, lo: int, hi: int) {
    forall a: nat :: && (lo <= a < hi || ByteAt(m', a) == ByteAt(m, a))
                     && (ByteAt(m', a).Some? <==> ByteAt(m, a).Some?)
  }

  lemma WriteChangesOnly(m: seq<Segment>, a: nat, d: seq<byte>)
    requires Mapped(m, a, |d|)
    ensures WriteSpec(m, a, d).ok && ChangesOnly(m, WriteSpec(m, a, d).segments, a, a + |d|)
    ensures ReadSpec(WriteSpec(m, a, d).segments, a, |d|) == Some(d)
  {
    hide Locate, Poke;
    WriteExact(m, a, d);
    ReadAfterWrite(m, a, d, a, 0);
    var m' := WriteSpec(m, a, d).segments;
    forall x: nat
      ensures ByteAt(m', x).Some? <==> ByteAt(m, x).Some?
    {
      if a <= x < a + |d| {
        assert ByteAt(m, x).Some?;
      }
    }
  }

  lemma MappedStays(m: seq<Segment>, m': seq<Segment>, lo: int, hi: int, a: nat, n: nat)
    requires ChangesOnly(m, m', lo, hi) && Mapped(m, a, n)
    ensures Mapped(m', a, n)
  {
    hide ByteAt;
  }

  /** A store unmaps nothing, whether or not its own range is mapped. */
  lemma StoreKeepsMapped(m: seq<Segment>, b: nat, d: seq<byte>, a: nat, n: nat)
    requires Mapped(m, a, n)
    ensures Mapped(WriteSpec(m, b, d).segments, a, n)
  {
    hide WriteSpec;
    WriteExact(m, b, d);
  }

  lemma ChangesCompose(m: seq<Segment>, m1: seq<Segment>, m2: seq<Segment>, lo: int, hi: int, lo1: int, hi1: int, lo2: int, hi2: int)
    requires ChangesOnly(m, m1, lo1, hi1) && ChangesOnly(m1, m2, lo2, hi2)
    requires lo <= lo1 && lo <= lo2 && hi1 <= hi && hi2 <= hi
    ensures ChangesOnly(m, m2, lo, hi)
  {
    hide ByteAt;
  }

  lemma NothingChanges(m: seq<Segment>, a: int)
    ensures forall lo: int :: ChangesOnly(m, m, lo, a)
  {
  }

  lemma MappedPart(m: seq<Segment>, a: nat, n: nat, b: nat, k: nat)
    requires Mapped(m, a, n) && a <= b && b + k <= a + n
    ensures Mapped(m, b, k)
  {
    hide ByteAt;
  }

  lemma SameRead(m: seq<Segment>, m': seq<Segment>, lo: int, hi: int, a: nat)
    requires ChangesOnly(m, m', lo, hi) && hi <= a
    ensures Read64(m', a) == Read64(m, a)
  {
    hide ByteAt, ReadSpec;
    ReadCongruence(m, m', a, 8);
  }
}
