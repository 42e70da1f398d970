/** Packed relative relocations: which words a stream of entries relocates, and with what effect. */
module Relr {
  import opened Words
  import opened BitFacts
  import opened Memory

  const BITS_PER_ENTRY: nat := 63

  // ---------- decoding, as the loops do it ----------

  /** The addresses of the set bits of `bitmap`, eight bytes a bit from `addr` upward. */
  function BitmapAddresses(bitmap: nat, addr: nat): seq<nat> {
    if bitmap == 0 then []
    else (if bitmap % 2 == 1 then [addr] else []) + BitmapAddresses(bitmap / 2, addr + 8)
  }

  /** The base after an address entry. */
  function After(a: nat): nat { a + 8 }

  /** An even entry is an address and sets the base after it; an odd one is a bitmap of the 63 words from the base. */
  function Listed(entries: seq<uint64>, base: nat): seq<nat> {
    if entries == [] then []
    else if entries[0] % 2 == 0 then [entries[0]] + Listed(entries[1..], After(entries[0]))
    else BitmapAddresses(entries[0] / 2, base) + Listed(entries[1..], base + 8 * BITS_PER_ENTRY)
  }

  // ---------- decoding, as the "Relative Relocation Table" section of the System V gABI prescribes it ----------

  /** The base before entry `j`: past the last address entry, plus 63 words for each bitmap since. */
  function BaseAt(entries: seq<uint64>, base: nat, j: nat): nat
    requires j <= |entries|
  {
    if j == 0 then base
    else if entries[j - 1] % 2 == 0 then entries[j - 1] + 8
    else BaseAt(entries, base, j - 1) + 504
  }

  /** Entry `j` prescribes address `a`: as the address itself, or by bit i + 1 for the i-th word after the base. */
  predicate Prescribes(entries: seq<uint64>, base: nat, j: nat, a: nat)
    requires j < |entries|
  {
    var e, b := entries[j], BaseAt(entries, base, j);
    if e % 2 == 0 then a == e
    else a >= b && (a - b) % 8 == 0 && (a - b) / 8 < 63 && Bit(e, (a - b) / 8 + 1)
  }

  predicate Prescribed(entries: seq<uint64>, base: nat, a: nat) {
    exists j :: 0 <= j < |entries| && Prescribes(entries, base, j, a)
  }

  lemma {:induction false} BitmapMembers(bitmap: nat, addr: nat, a: nat)
    ensures a in BitmapAddresses(bitmap, addr) <==> a >= addr && (a - addr) % 8 == 0 && Bit(bitmap, (a - addr) / 8)
    decreases bitmap
  {
    if bitmap == 0 {
      ZeroBits(if a >= addr then (a - addr) / 8 else 0);
    } else {
      BitmapMembers(bitmap / 2, addr + 8, a);
      if a >= addr + 8 {
        var k := (a - addr) / 8;
        assert (a - (addr + 8)) / 8 == k - 1 && (a - (addr + 8)) % 8 == (a - addr) % 8;
        BitStep(bitmap, k - 1);
      } else if a >= addr && (a - addr) % 8 == 0 {
        assert a == addr && Pow2(0) == 1;
      }
    }
  }

  lemma {:induction false} BaseShift(entries: seq<uint64>, base: nat, base': nat, j: nat)
    requires entries != [] && j <= |entries| - 1
    requires base' == BaseAt(entries, base, 1)
    ensures BaseAt(entries[1..], base', j) == BaseAt(entries, base, j + 1)
  {
    if j > 0 {
      BaseShift(entries, base, base', j - 1);
    }
  }

  lemma PrescribedCons(entries: seq<uint64>, base: nat, a: nat)
    requires entries != []
    ensures Prescribed(entries, base, a) <==>
            Prescribes(entries, base, 0, a) || Prescribed(entries[1..], BaseAt(entries, base, 1), a)
  {
    hide Bit;
    var rest, base' := entries[1..], BaseAt(entries, base, 1);
    forall j | 0 <= j < |rest|
      ensures Prescribes(rest, base', j, a) == Prescribes(entries, base, j + 1, a)
    {
      BaseShift(entries, base, base', j);
    }
    if Prescribed(entries, base, a) && !Prescribes(entries, base, 0, a) {
      var j :| 0 <= j < |entries| && Prescribes(entries, base, j, a);
      assert Prescribes(rest, base', j - 1, a);
    }
  }

  /** The addresses visited are exactly those prescribed. */
  lemma {:induction false} ListedIsPrescribed(entries: seq<uint64>, base: nat, a: nat)
    ensures a in Listed(entries, base) <==> Prescribed(entries, base, a)
    decreases |entries|
  {
    hide Bit, BitmapAddresses, Prescribes;
    if entries != [] {
      FirstBase(entries, base);
      ListedIsPrescribed(entries[1..], BaseAt(entries, base, 1), a);
      PrescribedCons(entries, base, a);
      FirstEntry(entries, base, a);
    }
  }

  lemma FirstBase(entries: seq<uint64>, base: nat)
    requires entries != []
    ensures BaseAt(entries, base, 1) == if entries[0] % 2 == 0 then After(entries[0]) else base + 8 * BITS_PER_ENTRY
  {
    assert BaseAt(entries, base, 0) == base;
  }

  lemma FirstEntry(entries: seq<uint64>, base: nat, a: nat)
    requires entries != []
    ensures Prescribes(entries, base, 0, a) <==>
            a in (if entries[0] % 2 == 0 then [entries[0]] else BitmapAddresses(entries[0] / 2, base))
  {
    var e := entries[0];
    if e % 2 == 1 {
      BitmapMembers(e / 2, base, a);
      if a >= base {
        var k := (a - base) / 8;
        BitStep(e, k);
        if k >= BITS_PER_ENTRY {
          Pow2Widths();
          NoBitsAbove(e, 64, k + 1);
        }
      }
    }
  }

  // ---------- streams whose address entries do not go back ----------

  predicate Forward(entries: seq<uint64>, base: nat) {
    entries == [] ||
    if entries[0] % 2 == 0 then entries[0] >= base && Forward(entries[1..], After(entries[0]))
    else Forward(entries[1..], base + 8 * BITS_PER_ENTRY)
  }

  /** Each element at least eight above the one before, the first at or above `lo`. */
  predicate Spaced(s: seq<nat>, lo: nat) {
    s == [] || (s[0] >= lo && Spaced(s[1..], s[0] + 8))
  }

  lemma {:induction false} SpacedLower(s: seq<nat>, lo: nat, lo': nat)
    requires Spaced(s, lo) && lo' <= lo
    ensures Spaced(s, lo')
  {
  }

  lemma {:induction false} SpacedAbove(s: seq<nat>, lo: nat, x: nat)
    requires Spaced(s, lo) && x in s
    ensures x >= lo
    decreases |s|
  {
    if x != s[0] {
      SpacedAbove(s[1..], s[0] + 8, x);
    }
  }

  lemma {:induction false} SpacedAppend(s: seq<nat>, t: seq<nat>, lo: nat, mid: nat)
    requires Spaced(s, lo) && Spaced(t, mid) && lo <= mid && forall x :: x in s ==> x + 8 <= mid
    ensures Spaced(s + t, lo)
    decreases |s|
  {
    if s == [] {
      SpacedLower(t, mid, lo);
      assert s + t == t;
    } else {
      assert s[0] in s && forall x :: x in s[1..] ==> x in s;
      SpacedAppend(s[1..], t, s[0] + 8, mid);
      assert (s + t)[1..] == s[1..] + t;
    }
  }

  lemma {:induction false} BitmapSpaced(bitmap: nat, addr: nat)
    ensures Spaced(BitmapAddresses(bitmap, addr), addr)
    decreases bitmap
  {
    if bitmap != 0 {
      BitmapSpaced(bitmap / 2, addr + 8);
      var rest := BitmapAddresses(bitmap / 2, addr + 8);
      if bitmap % 2 == 1 {
        assert ([addr] + rest)[1..] == rest;
      } else {
        SpacedLower(rest, addr + 8, addr);
        assert [] + rest == rest;
      }
    }
  }

  lemma BitmapBelow(e: uint64, base: nat, x: nat)
    requires x in BitmapAddresses(e / 2, base)
    ensures base <= x && x + 8 <= base + 8 * BITS_PER_ENTRY
  {
    BitmapMembers(e / 2, base, x);
    var k := (x - base) / 8;
    BitStep(e, k);
    if k >= BITS_PER_ENTRY {
      Pow2Widths();
      NoBitsAbove(e, 64, k + 1);
    }
  }

  /** If every address entry is at or above the running base, the visited addresses are at least eight apart. */
  lemma {:induction false} ForwardIsSpaced(entries: seq<uint64>, base: nat)
    requires Forward(entries, base)
    ensures Spaced(Listed(entries, base), base)
    decreases |entries|
  {
    if entries != [] {
      var e, rest := entries[0], entries[1..];
      if e % 2 == 0 {
        ForwardIsSpaced(rest, After(e));
        assert ([e] + Listed(rest, After(e)))[1..] == Listed(rest, After(e));
      } else {
        var mid := base + 8 * BITS_PER_ENTRY;
        ForwardIsSpaced(rest, mid);
        BitmapSpaced(e / 2, base);
        forall x | x in BitmapAddresses(e / 2, base)
          ensures x + 8 <= mid
        {
          BitmapBelow(e, base, x);
        }
        SpacedAppend(BitmapAddresses(e / 2, base), Listed(rest, mid), base, mid);
      }
    }
  }

  // ---------- relocation ----------

  /** Adds the bias to the word at `a + bias`, if it is mapped. */
  function RelocateWord(m: seq<Segment>, a: nat, bias: uint64): seq<Segment> {
    RelocateTarget(m, a + bias, bias)
  }

  function RelocateTarget(m: seq<Segment>, target: nat, bias: uint64): seq<Segment> {
    var v := Read64(m, target);
    if v.Some? then WriteSpec(m, target, Le(Wrap64(v.value + bias), 8)).segments else m
  }

  function Relocate(m: seq<Segment>, addrs: seq<nat>, bias: uint64): seq<Segment>
    decreases |addrs|
  {
    if addrs == [] then m else Relocate(RelocateWord(m, addrs[0], bias), addrs[1..], bias)
  }

  lemma {:induction false} RelocateAppend(m: seq<Segment>, s: seq<nat>, t: seq<nat>, bias: uint64)
    ensures Relocate(m, s + t, bias) == Relocate(Relocate(m, s, bias), t, bias)
    decreases |s|
  {
    if s == [] {
      assert s + t == t;
    } else {
      assert (s + t)[1..] == s[1..] + t;
      RelocateAppend(RelocateWord(m, s[0], bias), s[1..], t, bias);
    }
  }

  lemma WordEffect(m: seq<Segment>, a: nat, bias: uint64)
    ensures var m' := RelocateWord(m, a, bias);
            var v := Read64(m, a + bias);
            && Read64(m', a + bias) == (if v.Some? then Some(Wrap64(v.value + bias)) else None)
            && (forall x: nat :: !(a + bias <= x < a + bias + 8) ==> ByteAt(m', x) == ByteAt(m, x))
            && (v.None? ==> m' == m)
  {
    hide ReadSpec, ByteAt, Locate;
    var v := Read64(m, a + bias);
    if v.Some? {
      var d := Le(Wrap64(v.value + bias), 8);
      WriteExact(m, a + bias, d);
      Read64AfterWrite(m, a + bias, Wrap64(v.value + bias));
    }
  }

  /** Byte `x` lies in a listed word that is mapped. */
  predicate Covers(m: seq<Segment>, addrs: seq<nat>, bias: uint64, x: nat) {
    exists i :: 0 <= i < |addrs| && InWord(m, addrs[i], bias, x)
  }

  predicate InWord(m: seq<Segment>, a: nat, bias: uint64, x: nat) {
    a + bias <= x < a + bias + 8 && Read64(m, a + bias).Some?
  }

  /**
   Over addresses at least eight apart, every listed mapped word gains the bias modulo 2^64 exactly once,
   every listed unmapped word is left alone, and every other byte of memory is unchanged.
   */
  lemma {:induction false} RelocateExact(m: seq<Segment>, addrs: seq<nat>, lo: nat, bias: uint64)
    requires Spaced(addrs, lo)
    ensures var m' := Relocate(m, addrs, bias);
            && (forall a :: a in addrs ==>
                  var v := Read64(m, a + bias);
                  Read64(m', a + bias) == if v.Some? then Some(Wrap64(v.value + bias)) else None)
            && (forall x: nat :: !Covers(m, addrs, bias, x) ==> ByteAt(m', x) == ByteAt(m, x))
    decreases |addrs|
  {
    hide ByteAt, Read64, RelocateWord;
    if addrs != [] {
      var first, rest := addrs[0], addrs[1..];
      var m1 := RelocateWord(m, first, bias);
      var m' := Relocate(m, addrs, bias);
      WordEffect(m, first, bias);
      RelocateExact(m1, rest, first + 8, bias);
      assert m' == Relocate(m1, rest, bias);
      forall a | a in rest
        ensures a >= first + 8 && Read64(m1, a + bias) == Read64(m, a + bias)
      {
        SpacedAbove(rest, first + 8, a);
        SameWord(m, m1, a + bias);
      }
      assert Read64(m', first + bias) == Read64(m1, first + bias) by {
        forall x | first + bias <= x < first + bias + 8
          ensures ByteAt(m', x) == ByteAt(m1, x)
        {
          assert forall i :: 0 <= i < |rest| ==> rest[i] in rest;
        }
        SameWord(m1, m', first + bias);
      }
      forall a | a in addrs
        ensures var v := Read64(m, a + bias);
                Read64(m', a + bias) == if v.Some? then Some(Wrap64(v.value + bias)) else None
      {
        assert a == first || a in rest;
      }
      forall x: nat | !Covers(m, addrs, bias, x)
        ensures ByteAt(m', x) == ByteAt(m, x)
      {
        assert !InWord(m, addrs[0], bias, x);
        forall i | 0 <= i < |rest|
          ensures !InWord(m1, rest[i], bias, x)
        {
          assert rest[i] in rest && !InWord(m, addrs[i + 1], bias, x);
        }
      }
    }
  }

  /**
   A section whose address entries never go back below the running base: every prescribed word that is
   mapped gains the bias modulo 2^64 exactly once, and every byte outside those words is unchanged.
   */
  lemma SectionRelocates(m: seq<Segment>, entries: seq<uint64>, bias: uint64)
    requires Forward(entries, 0)
    ensures var m' := Relocate(m, Listed(entries, 0), bias);
            && (forall a: nat :: Prescribed(entries, 0, a) ==>
                  var v := Read64(m, a + bias);
                  Read64(m', a + bias) == if v.Some? then Some(Wrap64(v.value + bias)) else None)
            && (forall x: nat :: (forall a: nat :: Prescribed(entries, 0, a) ==> !InWord(m, a, bias, x)) ==>
                  ByteAt(m', x) == ByteAt(m, x))
  {
    hide ByteAt, Read64, Relocate, Listed, Prescribed;
    var addrs := Listed(entries, 0);
    ForwardIsSpaced(entries, 0);
    RelocateExact(m, addrs, 0, bias);
    forall a: nat
      ensures a in addrs <==> Prescribed(entries, 0, a)
    {
      ListedIsPrescribed(entries, 0, a);
    }
    forall x: nat | forall a: nat :: Prescribed(entries, 0, a) ==> !InWord(m, a, bias, x)
      ensures !Covers(m, addrs, bias, x)
    {
      forall i | 0 <= i < |addrs|
        ensures !InWord(m, addrs[i], bias, x)
      {
        assert addrs[i] in addrs;
      }
    }
  }

  lemma SameWord(m: seq<Segment>, m': seq<Segment>, a: nat)
    requires forall x :: a <= x < a + 8 ==> ByteAt(m', x) == ByteAt(m, x)
    ensures Read64(m', a) == Read64(m, a)
  {
    hide ByteAt, ReadSpec;
    ReadCongruence(m, m', a, 8);
  }

  // ---------- the loader's loops ----------

  method RelocateAt(mem: MemoryManager, target: uint64, bias: uint64)
    requires mem.Valid()
    modifies mem
    ensures mem.Valid()
    ensures mem.State() == old(mem.State()).(segments := RelocateTarget(old(mem.segments), target, bias))
  {
    hide ReadSpec, WriteSpec, FromLe, Le;
    var existing := mem.Read(target, 8);
    if existing.Some? {
      var value := FromLe64(existing.value);
      var ok := mem.Write(target, Le(Wrap64(value + bias), 8));
    }
  }

  /** One bitmap: shifts it down a bit at a time, relocating the word of each set bit. */
  method RelocateBitmap(mem: MemoryManager, bits: nat, start: nat, bias: uint64)
    requires mem.Valid()
    requires forall a :: a in BitmapAddresses(bits, start) ==> a + bias < TWO64
    modifies mem
    ensures mem.Valid()
    ensures mem.State() ==
            old(mem.State()).(segments := Relocate(old(mem.segments), BitmapAddresses(bits, start), bias))
  {
    hide RelocateTarget;
    ghost var before, all := mem.segments, BitmapAddresses(bits, start);
    ghost var done: seq<nat> := [];
    var bitmap: nat, addr: nat := bits, start;
    assert [] + all == all;
    while bitmap != 0
      invariant all == done + BitmapAddresses(bitmap, addr)
      invariant mem.Valid()
      invariant mem.State() == old(mem.State()).(segments := Relocate(before, done, bias))
      decreases bitmap
    {
      ghost var tail := BitmapAddresses(bitmap / 2, addr + 8);
      if bitmap % 2 != 0 {
        assert all[|done|] == addr;
        assert addr in all;
        RelocateAt(mem, addr + bias, bias);
        RelocateSnoc(before, done, addr, bias);
        assert done + ([addr] + tail) == (done + [addr]) + tail;
        done := done + [addr];
      } else {
        assert [] + tail == tail;
      }
      bitmap := bitmap / 2;
      addr := addr + 8;
    }
    assert done + [] == done;
  }

  /** Decodes and applies a whole section of entries. */
  method RelocateSection(mem: MemoryManager, entries: seq<uint64>, bias: uint64)
    requires mem.Valid()
    requires forall a :: a in Listed(entries, 0) ==> a + bias < TWO64
    modifies mem
    ensures mem.Valid()
    ensures mem.State() == old(mem.State()).(segments := Relocate(old(mem.segments), Listed(entries, 0), bias))
  {
    hide RelocateTarget, BitmapAddresses;
    ghost var before, all := mem.segments, Listed(entries, 0);
    ghost var done: seq<nat> := [];
    var base: nat := 0;
    var k := 0;
    assert entries[0..] == entries && [] + all == all;
    while k < |entries|
      invariant 0 <= k <= |entries|
      invariant all == done + Listed(entries[k..], base)
      invariant mem.Valid()
      invariant mem.State() == old(mem.State()).(segments := Relocate(before, done, bias))
    {
      var entry := entries[k];
      ghost var rest := entries[k + 1..];
      assert entries[k..][0] == entry && entries[k..][1..] == rest;
      if entry % 2 == 0 {
        assert all == (done + [entry]) + Listed(rest, After(entry));
        assert all[|done|] == entry;
        assert entry in all;
        RelocateAt(mem, entry + bias, bias);
        RelocateSnoc(before, done, entry, bias);
        done := done + [entry];
        base := After(entry);
      } else {
        ghost var here := BitmapAddresses(entry / 2, base);
        assert all == (done + here) + Listed(rest, base + 8 * BITS_PER_ENTRY);
        forall a | a in here ensures a + bias < TWO64 { assert a in all; }
        RelocateBitmap(mem, entry / 2, base, bias);
        RelocateAppend(before, done, here, bias);
        done := done + here;
        base := base + 8 * BITS_PER_ENTRY;
      }
      k := k + 1;
    }
    assert done + [] == done;
  }

  lemma RelocateSnoc(m: seq<Segment>, done: seq<nat>, a: nat, bias: uint64)
    ensures Relocate(m, done + [a], bias) == RelocateWord(Relocate(m, done, bias), a, bias)
  {
    hide RelocateTarget;
    RelocateAppend(m, done, [a], bias);
    assert [a][1..] == [];
  }

  // ---------- a greedy encoder, and the round trip ----------

  predicate Encodable(addrs: seq<nat>, lo: nat) {
    Spaced(addrs, lo) && forall i :: 0 <= i < |addrs| ==> addrs[i] % 8 == 0 && addrs[i] < TWO64
  }

  /** How many leading addresses lie below `limit`. */
  function CountBelow(addrs: seq<nat>, limit: nat): (n: nat)
    ensures n <= |addrs|
    ensures forall i :: 0 <= i < n ==> addrs[i] < limit
    ensures n < |addrs| ==> addrs[n] >= limit
  {
    if addrs == [] || addrs[0] >= limit then 0 else 1 + CountBelow(addrs[1..], limit)
  }

  /** The bitmap of addresses below `limit`, eight bytes a bit from `addr` upward. */
  function MakeBitmap(addrs: seq<nat>, addr: nat, limit: nat): nat
    decreases limit - addr
  {
    if addr >= limit || addrs == [] then 0
    else if addrs[0] == addr then 1 + 2 * MakeBitmap(addrs[1..], addr + 8, limit)
    else 2 * MakeBitmap(addrs, addr + 8, limit)
  }

  /** Starts a new run with an address entry. */
  function Encode(addrs: seq<nat>): (entries: seq<nat>)
    decreases |addrs|, 1
  {
    if addrs == [] then [] else [addrs[0]] + EncodeFrom(addrs[1..], After(addrs[0]))
  }

  /** Continues a run with bitmaps as long as the next address is within reach of one. */
  function EncodeFrom(addrs: seq<nat>, base: nat): (entries: seq<nat>)
    decreases |addrs|, 2
  {
    var limit := base + 8 * BITS_PER_ENTRY;
    var n := CountBelow(addrs, limit);
    if n == 0 then Encode(addrs)
    else [2 * MakeBitmap(addrs[..n], base, limit) + 1] + EncodeFrom(addrs[n..], limit)
  }

  predicate IsEntries(s: seq<nat>) { forall i :: 0 <= i < |s| ==> s[i] < TWO64 }

  lemma {:induction false} SpacedParts(addrs: seq<nat>, lo: nat, n: nat)
    requires Spaced(addrs, lo) && n <= |addrs|
    ensures Spaced(addrs[..n], lo)
    ensures forall limit: nat :: (n < |addrs| ==> addrs[n] >= limit) ==> Spaced(addrs[n..], limit)
    decreases |addrs|
  {
    if n == 0 {
      assert addrs[0..] == addrs;
      if addrs != [] {
        forall limit: nat | addrs[0] >= limit ensures Spaced(addrs, limit) { }
      }
    } else {
      SpacedParts(addrs[1..], addrs[0] + 8, n - 1);
      assert addrs[..n][1..] == addrs[1..][..n - 1] && addrs[n..] == addrs[1..][n - 1..];
      assert n < |addrs| ==> addrs[n] == addrs[1..][n - 1];
    }
  }

  /** Word addresses below a limit. */
  predicate Slots(addrs: seq<nat>, limit: nat) {
    forall i :: 0 <= i < |addrs| ==> addrs[i] % 8 == 0 && addrs[i] < limit
  }

  lemma {:induction false} BitmapRoundTrip(addrs: seq<nat>, addr: nat, slots: nat)
    requires Spaced(addrs, addr) && addr % 8 == 0 && Slots(addrs, addr + 8 * slots)
    ensures BitmapAddresses(MakeBitmap(addrs, addr, addr + 8 * slots), addr) == addrs
    ensures MakeBitmap(addrs, addr, addr + 8 * slots) < Pow2(slots)
    ensures addrs != [] ==> MakeBitmap(addrs, addr, addr + 8 * slots) > 0
    decreases slots
  {
    if addrs != [] {
      hide Pow2, BitmapAddresses, MakeBitmap, Spaced, Slots;
      var limit := addr + 8 * slots;
      SlotsStep(addrs, addr, slots);
      MakeBitmapStep(addrs, addr, limit);
      PowStep(slots);
      if addrs[0] == addr {
        BitmapRoundTrip(addrs[1..], addr + 8, slots - 1);
        BitmapStep(MakeBitmap(addrs[1..], addr + 8, limit), 1, addr);
        assert addrs == [addr] + addrs[1..];
      } else {
        BitmapRoundTrip(addrs, addr + 8, slots - 1);
        BitmapStep(MakeBitmap(addrs, addr + 8, limit), 0, addr);
        assert [] + addrs == addrs;
      }
    } else {
      hide Pow2, Spaced, Slots;
      assert MakeBitmap(addrs, addr, addr + 8 * slots) == 0;
    }
  }

  lemma SlotsStep(addrs: seq<nat>, addr: nat, slots: nat)
    requires addrs != [] && Spaced(addrs, addr) && addr % 8 == 0 && Slots(addrs, addr + 8 * slots)
    ensures slots > 0 && addr + 8 * slots == (addr + 8) + 8 * (slots - 1) && (addr + 8) % 8 == 0
    ensures Slots(addrs[1..], addr + 8 * slots)
    ensures if addrs[0] == addr then Spaced(addrs[1..], addr + 8) else Spaced(addrs, addr + 8)
  {
    assert addrs[0] % 8 == 0 && addr <= addrs[0] < addr + 8 * slots;
    EightIsEven(addr);
    assert forall i :: 0 <= i < |addrs[1..]| ==> addrs[1..][i] == addrs[i + 1];
  }

  lemma MakeBitmapStep(addrs: seq<nat>, addr: nat, limit: nat)
    requires addrs != [] && addr < limit
    ensures MakeBitmap(addrs, addr, limit) ==
            if addrs[0] == addr then 1 + 2 * MakeBitmap(addrs[1..], addr + 8, limit)
            else 2 * MakeBitmap(addrs, addr + 8, limit)
  {
  }

  lemma BitmapStep(high: nat, low: nat, addr: nat)
    requires low < 2
    ensures BitmapAddresses(2 * high + low, addr) == (if low == 1 then [addr] else []) + BitmapAddresses(high, addr + 8)
  {
    assert (2 * high + low) / 2 == high && (2 * high + low) % 2 == low;
  }

  lemma EntriesCons(e: nat, tail: seq<nat>)
    requires e < TWO64 && IsEntries(tail)
    ensures IsEntries([e] + tail) && ([e] + tail)[1..] == tail && ([e] + tail)[0] == e
  {
  }

  lemma ListedCons(e: uint64, tail: seq<uint64>, base: nat)
    ensures e % 2 == 0 ==> Listed([e] + tail, base) == [e] + Listed(tail, After(e))
    ensures e % 2 == 1 ==> Listed([e] + tail, base) == BitmapAddresses(e / 2, base) + Listed(tail, base + 8 * BITS_PER_ENTRY)
  {
    assert ([e] + tail)[1..] == tail;
  }

  /** Decoding a greedy encoding gives back the list, for every strictly increasing list of 8-aligned addresses. */
  lemma {:induction false} RoundTrip(addrs: seq<nat>, base: nat)
    requires Encodable(addrs, 0)
    ensures IsEntries(Encode(addrs)) && Listed(Encode(addrs), base) == addrs
    decreases |addrs|, 1
  {
    hide Encode, EncodeFrom, BitmapAddresses, Listed, Spaced, Encodable;
    if addrs == [] {
      EncodeNothing(base);
    } else {
      EncodableTail(addrs);
      var a, rest := addrs[0], addrs[1..];
      RoundTripFrom(rest, After(a));
      var tail := EncodeFrom(rest, After(a));
      EncodeStarts(addrs);
      RoundTripCons(a, rest, tail, base);
      assert addrs == [a] + rest;
    }
  }

  lemma RoundTripCons(a: nat, rest: seq<nat>, tail: seq<nat>, base: nat)
    requires a < TWO64 && a % 2 == 0 && IsEntries(tail) && Listed(tail, After(a)) == rest
    ensures IsEntries([a] + tail) && Listed([a] + tail, base) == [a] + rest
  {
    hide Listed;
    EntriesCons(a, tail);
    ListedCons(a, tail, base);
  }

  lemma EncodeNothing(base: nat)
    ensures Encode([]) == [] && Listed([], base) == []
  {
  }

  lemma EncodeStarts(addrs: seq<nat>)
    requires addrs != []
    ensures Encode(addrs) == [addrs[0]] + EncodeFrom(addrs[1..], After(addrs[0]))
  {
    hide EncodeFrom;
  }

  lemma EightIsEven(a: nat)
    requires a % 8 == 0
    ensures a % 2 == 0 && (a + 8) % 8 == 0
  {
    ModAddMultiple(0, 4 * (a / 8), 2);
    ModAddMultiple(a, 1, 8);
  }

  lemma EncodableTail(addrs: seq<nat>)
    requires Encodable(addrs, 0) && addrs != []
    ensures addrs[0] < TWO64 && addrs[0] % 2 == 0 && Encodable(addrs[1..], After(addrs[0]))
    ensures After(addrs[0]) % 8 == 0
  {
    EightIsEven(addrs[0]);
    assert forall i :: 0 <= i < |addrs[1..]| ==> addrs[1..][i] == addrs[i + 1];
  }

  lemma BitmapEntry(addrs: seq<nat>, base: nat, limit: nat)
    requires addrs != [] && limit == base + 8 * BITS_PER_ENTRY && Encodable(addrs, base) && base % 8 == 0
    requires forall i :: 0 <= i < |addrs| ==> addrs[i] < limit
    ensures var e := 2 * MakeBitmap(addrs, base, limit) + 1;
            e < TWO64 && e % 2 == 1 && BitmapAddresses(e / 2, base) == addrs
  {
    hide MakeBitmap, BitmapAddresses;
    BitmapRoundTrip(addrs, base, BITS_PER_ENTRY);
    Pow2Widths();
    var bitmap := MakeBitmap(addrs, base, limit);
    assert (2 * bitmap + 1) / 2 == bitmap;
  }

  lemma {:induction false} RoundTripFrom(addrs: seq<nat>, base: nat)
    requires Encodable(addrs, base) && base % 8 == 0
    ensures IsEntries(EncodeFrom(addrs, base)) && Listed(EncodeFrom(addrs, base), base) == addrs
    decreases |addrs|, 2
  {
    hide Encode, BitmapAddresses, MakeBitmap, CountBelow, Listed, Spaced;
    var limit := base + 8 * BITS_PER_ENTRY;
    var n := CountBelow(addrs, limit);
    if n == 0 {
      SpacedLower(addrs, base, 0);
      RoundTrip(addrs, base);
    } else {
      var here, rest := addrs[..n], addrs[n..];
      SpacedParts(addrs, base, n);
      BitmapEntry(here, base, limit);
      RoundTripFrom(rest, limit);
      EntriesCons(2 * MakeBitmap(here, base, limit) + 1, EncodeFrom(rest, limit));
      ListedCons(2 * MakeBitmap(here, base, limit) + 1, EncodeFrom(rest, limit), base);
      assert addrs == here + rest;
    }
  }
}
