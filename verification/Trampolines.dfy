/** Dynamic symbol binding: the trampoline address of each undefined symbol. */
module Trampolines {
  import opened Words
  import opened Memory
  import opened Footprint

  const TRAMPOLINES: nat := 0x7f00_0000
  const DATA_SYMBOLS: nat := 0x7f01_0000
  const MAX_TRAMPOLINES: nat := 0x2000

  datatype Symbol = Symbol(undefined: bool, name: Option<string>, address: uint64)

  datatype Reloc = Reloc(offset: uint64, symbol: Option<Symbol>, addend: uint64)

  /** The fixed address of a C library data symbol, or 0. */
  function DataSymbol(name: string): uint64 {
    if name == "stdout" then 0x7f01_0000
    else if name == "stderr" then 0x7f01_0100
    else if name == "stdin" then 0x7f01_0200
    else if name == "optind" then 0x7f01_0300
    else if name == "optarg" then 0x7f01_0308
    else if name == "opterr" then 0x7f01_0310
    else if name == "optopt" then 0x7f01_0318
    else if name == "environ" then 0x7f01_0400
    else 0
  }

  /** The name a relocation binds by trampoline, if it does. */
  function ThunkName(r: Reloc): Option<string> {
    if r.symbol.Some? && r.symbol.value.undefined && r.symbol.value.name.Some?
       && r.symbol.value.name.value != "" && DataSymbol(r.symbol.value.name.value) == 0
    then r.symbol.value.name
    else None
  }

  /** The table by name, and the list in order of first use. */
  datatype Tables = Tables(symbols: map<string, uint64>, thunks: seq<(uint64, string)>)

  function AddName(t: Tables, name: string): Tables {
    if name in t.symbols then t
    else
      var a := Wrap64(TRAMPOLINES + |t.symbols| * 8);
      Tables(t.symbols[name := a], t.thunks + [(a, name)])
  }

  function Bind(t: Tables, r: Reloc): Tables {
    if ThunkName(r).Some? then AddName(t, ThunkName(r).value) else t
  }

  function BindAll(t: Tables, relocs: seq<Reloc>): Tables
    decreases |relocs|
  {
    if relocs == [] then t else BindAll(Bind(t, relocs[0]), relocs[1..])
  }

  /** The word stored for a relocation, once its name is in the table. */
  function Value(t: Tables, r: Reloc, bias: uint64): uint64 {
    if r.symbol.Some? && r.symbol.value.undefined && r.symbol.value.name.Some? && r.symbol.value.name.value != "" then
      var name := r.symbol.value.name.value;
      if DataSymbol(name) != 0 then DataSymbol(name)
      else if name in t.symbols then t.symbols[name]
      else 0
    else if r.symbol.Some? && !r.symbol.value.undefined && r.symbol.value.address != 0 then
      Wrap64(r.symbol.value.address + bias + r.addend)
    else Wrap64(bias + r.addend)
  }

  // ---------- what every binding keeps ----------

  /** Position of a name in the list of thunks. */
  function Position(thunks: seq<(uint64, string)>, name: string): (i: nat)
    ensures i <= |thunks|
    ensures i < |thunks| ==> thunks[i].1 == name
    ensures forall j :: 0 <= j < i ==> thunks[j].1 != name
  {
    if thunks == [] || thunks[0].1 == name then 0 else 1 + Position(thunks[1..], name)
  }

  predicate Listed(thunks: seq<(uint64, string)>, name: string) {
    exists i :: 0 <= i < |thunks| && thunks[i].1 == name
  }

  lemma ListedAppend(thunks: seq<(uint64, string)>, e: (uint64, string), name: string)
    requires Listed(thunks, name) || e.1 == name
    ensures Listed(thunks + [e], name)
  {
    var all := thunks + [e];
    if e.1 == name {
      assert all[|thunks|].1 == name;
    } else {
      var i :| 0 <= i < |thunks| && thunks[i].1 == name;
      assert all[i].1 == name;
    }
  }

  lemma ListedAt(thunks: seq<(uint64, string)>, name: string)
    requires Listed(thunks, name)
    ensures Position(thunks, name) < |thunks|
  {
  }

  /** The list has distinct names at consecutive trampolines, and the table is its index. */
  predicate Indexed(t: Tables) {
    && |t.symbols| == |t.thunks|
    && TRAMPOLINES + 8 * |t.thunks| < TWO64
    && (forall i :: 0 <= i < |t.thunks| ==>
          && t.thunks[i].0 == TRAMPOLINES + 8 * i
          && t.thunks[i].1 in t.symbols && t.symbols[t.thunks[i].1] == t.thunks[i].0)
    && (forall name :: name in t.symbols ==> Listed(t.thunks, name))
  }

  /** The list of `t'` continues that of `t`, so no address already given changes. */
  predicate Continues(t: Tables, t': Tables) {
    && |t.thunks| <= |t'.thunks|
    && (forall i :: 0 <= i < |t.thunks| ==> t'.thunks[i] == t.thunks[i])
    && (forall name :: name in t.symbols ==> name in t'.symbols && t'.symbols[name] == t.symbols[name])
  }

  lemma AddKeeps(t: Tables, name: string)
    requires Indexed(t) && TRAMPOLINES + 8 * (|t.thunks| + 1) < TWO64
    ensures Indexed(AddName(t, name)) && Continues(t, AddName(t, name))
    ensures name in AddName(t, name).symbols && |AddName(t, name).thunks| <= |t.thunks| + 1
  {
    hide Listed;
    if name !in t.symbols {
      Append(t, name, TRAMPOLINES + 8 * |t.thunks|);
    }
  }

  lemma Append(t: Tables, name: string, a: uint64)
    requires Indexed(t) && name !in t.symbols && a == TRAMPOLINES + 8 * |t.thunks| && a + 8 < TWO64
    ensures var t' := Tables(t.symbols[name := a], t.thunks + [(a, name)]);
            Indexed(t') && Continues(t, t')
  {
    hide Listed;
    var e := (a, name);
    var t' := Tables(t.symbols[name := a], t.thunks + [e]);
    assert t'.symbols.Keys == t.symbols.Keys + {name};
    forall i | 0 <= i < |t'.thunks|
      ensures t'.thunks[i].0 == TRAMPOLINES + 8 * i
      ensures t'.thunks[i].1 in t'.symbols && t'.symbols[t'.thunks[i].1] == t'.thunks[i].0
    {
      if i < |t.thunks| {
        assert t'.thunks[i] == t.thunks[i];
      }
    }
    forall n | n in t'.symbols
      ensures Listed(t'.thunks, n)
    {
      ListedAppend(t.thunks, e, n);
    }
  }

  lemma BindAdds(t: Tables, r: Reloc, name: string)
    requires name in Bind(t, r).symbols && name !in t.symbols
    ensures ThunkName(r) == Some(name)
  {
    hide ThunkName;
  }

  lemma {:induction false} BindAllKeeps(t: Tables, relocs: seq<Reloc>)
    requires Indexed(t) && TRAMPOLINES + 8 * (|t.thunks| + |relocs|) < TWO64
    ensures var t' := BindAll(t, relocs);
            && Indexed(t') && Continues(t, t')
            && (forall i :: 0 <= i < |relocs| && ThunkName(relocs[i]).Some? ==> ThunkName(relocs[i]).value in t'.symbols)
            && (forall name :: name in t'.symbols && name !in t.symbols ==> exists i :: 0 <= i < |relocs| && ThunkName(relocs[i]) == Some(name))
    decreases |relocs|
  {
    hide DataSymbol, ThunkName, AddName, Indexed;
    if relocs != [] {
      var r, rest := relocs[0], relocs[1..];
      if ThunkName(r).Some? {
        AddKeeps(t, ThunkName(r).value);
      }
      var t1 := Bind(t, r);
      BindAllKeeps(t1, rest);
      var t' := BindAll(t, relocs);
      forall i | 0 <= i < |relocs| && ThunkName(relocs[i]).Some?
        ensures ThunkName(relocs[i]).value in t'.symbols
      {
        assert i > 0 ==> relocs[i] == rest[i - 1];
      }
      forall name | name in t'.symbols && name !in t.symbols
        ensures exists i :: 0 <= i < |relocs| && ThunkName(relocs[i]) == Some(name)
      {
        if name in t1.symbols {
          BindAdds(t, r, name);
          assert ThunkName(relocs[0]) == Some(name);
        } else {
          var i :| 0 <= i < |rest| && ThunkName(rest[i]) == Some(name);
          assert ThunkName(relocs[i + 1]) == Some(name);
        }
      }
    }
  }

  lemma ValueIsAddress(t: Tables, r: Reloc, bias: uint64)
    requires ThunkName(r).Some? && ThunkName(r).value in t.symbols
    ensures Value(t, r, bias) == t.symbols[ThunkName(r).value]
  {
    hide DataSymbol;
  }

  const EMPTY := Tables(map[], [])

  /**
   Over any sequence of relocations the trampoline table is a bijection. Every name bound by trampoline has
   exactly one place in the list of thunks and the address of that place, the same for every relocation that
   uses it; different names have different addresses; every listed name was asked for by some relocation; and
   with fewer than 0x2000 names no address reaches the data symbols.
   */
  lemma TableIsBijection(relocs: seq<Reloc>, bias: uint64)
    requires TRAMPOLINES + 8 * |relocs| < TWO64
    ensures var t := BindAll(EMPTY, relocs);
            && (forall i :: 0 <= i < |relocs| && ThunkName(relocs[i]).Some? ==>
                  var p := Position(t.thunks, ThunkName(relocs[i]).value);
                  p < |t.thunks| && Value(t, relocs[i], bias) == TRAMPOLINES + 8 * p)
            && (forall i, j :: 0 <= i < j < |t.thunks| ==> t.thunks[i].0 != t.thunks[j].0 && t.thunks[i].1 != t.thunks[j].1)
            && (forall i :: 0 <= i < |t.thunks| ==> exists j :: 0 <= j < |relocs| && ThunkName(relocs[j]) == Some(t.thunks[i].1))
            && (|t.thunks| < MAX_TRAMPOLINES ==> forall i :: 0 <= i < |t.thunks| ==> t.thunks[i].0 + 8 <= DATA_SYMBOLS)
  {
    hide DataSymbol, ThunkName, Value, Listed;
    assert Indexed(EMPTY);
    BindAllKeeps(EMPTY, relocs);
    hide BindAll;
    var t := BindAll(EMPTY, relocs);
    forall i | 0 <= i < |relocs| && ThunkName(relocs[i]).Some?
      ensures var p := Position(t.thunks, ThunkName(relocs[i]).value);
              p < |t.thunks| && Value(t, relocs[i], bias) == TRAMPOLINES + 8 * p
    {
      var name := ThunkName(relocs[i]).value;
      ValueIsAddress(t, relocs[i], bias);
      ListedAt(t.thunks, name);
    }
    forall i, j | 0 <= i < j < |t.thunks|
      ensures t.thunks[i].1 != t.thunks[j].1
    {
      assert t.symbols[t.thunks[i].1] != t.symbols[t.thunks[j].1];
    }
  }

  // ---------- the loader's loop ----------

  function Target(r: Reloc, bias: uint64): uint64 { Wrap64(r.offset + bias) }

  /** The stores of a relocation sequence; a store outside mapped memory is ignored. */
  function Stored(m: seq<Segment>, t: Tables, relocs: seq<Reloc>, bias: uint64): seq<Segment>
    decreases |relocs|
  {
    if relocs == [] then m
    else
      var t1 := Bind(t, relocs[0]);
      var m1 := WriteSpec(m, Target(relocs[0], bias), Le(Value(t1, relocs[0], bias), 8)).segments;
      Stored(m1, t1, relocs[1..], bias)
  }

  /** The stores of a relocation sequence when all of them look up one and the same table. */
  function StoredFrom(m: seq<Segment>, t: Tables, relocs: seq<Reloc>, bias: uint64): seq<Segment>
    decreases |relocs|
  {
    if relocs == [] then m
    else
      var m1 := WriteSpec(m, Target(relocs[0], bias), Le(Value(t, relocs[0], bias), 8)).segments;
      StoredFrom(m1, t, relocs[1..], bias)
  }

  lemma ValueIsStable(t: Tables, t': Tables, r: Reloc, bias: uint64)
    requires Continues(t, t') && (ThunkName(r).Some? ==> ThunkName(r).value in t.symbols)
    ensures Value(t', r, bias) == Value(t, r, bias)
  {
    hide DataSymbol;
  }

  lemma BindBinds(t: Tables, r: Reloc)
    requires Indexed(t) && TRAMPOLINES + 8 * (|t.thunks| + 1) < TWO64
    ensures Indexed(Bind(t, r)) && |Bind(t, r).thunks| <= |t.thunks| + 1
    ensures ThunkName(r).Some? ==> ThunkName(r).value in Bind(t, r).symbols
  {
    hide ThunkName, Indexed, AddName;
    if ThunkName(r).Some? {
      AddKeeps(t, ThunkName(r).value);
    }
  }

  /** Binding while storing is the same as first building the whole table and then storing from it. */
  lemma {:induction false} StoresUseFinalTable(m: seq<Segment>, t: Tables, relocs: seq<Reloc>, bias: uint64)
    requires Indexed(t) && TRAMPOLINES + 8 * (|t.thunks| + |relocs|) < TWO64
    ensures Stored(m, t, relocs, bias) == StoredFrom(m, BindAll(t, relocs), relocs, bias)
    decreases |relocs|
  {
    hide ThunkName, Indexed, Bind, Value, WriteSpec, Continues;
    if relocs != [] {
      var r, rest := relocs[0], relocs[1..];
      BindBinds(t, r);
      var t1 := Bind(t, r);
      BindAllKeeps(t1, rest);
      ValueIsStable(t1, BindAll(t1, rest), r, bias);
      var m1 := WriteSpec(m, Target(r, bias), Le(Value(t1, r, bias), 8)).segments;
      StoresUseFinalTable(m1, t1, rest, bias);
    }
  }

  /** No other slot overlaps slot `i`. */
  predicate SlotApart(relocs: seq<Reloc>, bias: uint64, i: nat)
    requires i < |relocs|
  {
    forall j :: 0 <= j < |relocs| && j != i ==>
      Target(relocs[j], bias) + 8 <= Target(relocs[i], bias) || Target(relocs[i], bias) + 8 <= Target(relocs[j], bias)
  }

  predicate AwayFrom(relocs: seq<Reloc>, bias: uint64, a: nat) {
    forall i :: 0 <= i < |relocs| ==> Target(relocs[i], bias) + 8 <= a || a + 8 <= Target(relocs[i], bias)
  }

  lemma {:induction false} OtherWordsKept(m: seq<Segment>, t: Tables, relocs: seq<Reloc>, bias: uint64, a: nat)
    requires AwayFrom(relocs, bias, a)
    ensures Read64(StoredFrom(m, t, relocs, bias), a) == Read64(m, a)
    ensures Mapped(StoredFrom(m, t, relocs, bias), a, 8) == Mapped(m, a, 8)
    decreases |relocs|
  {
    hide Value, WriteSpec, Mapped, MappedPrefix, ByteAt;
    if relocs != [] {
      var d := Le(Value(t, relocs[0], bias), 8);
      var m1 := WriteSpec(m, Target(relocs[0], bias), d).segments;
      WriteElsewhere(m, Target(relocs[0], bias), d, a);
      assert AwayFrom(relocs[1..], bias, a);
      OtherWordsKept(m1, t, relocs[1..], bias, a);
    }
  }

  lemma WriteElsewhere(m: seq<Segment>, b: nat, d: seq<byte>, a: nat)
    requires b + |d| <= a || a + 8 <= b
    ensures var m1 := WriteSpec(m, b, d).segments;
            Read64(m1, a) == Read64(m, a) && Mapped(m1, a, 8) == Mapped(m, a, 8)
  {
    hide WriteSpec;
    WriteExact(m, b, d);
    ReadCongruence(m, WriteSpec(m, b, d).segments, a, 8);
  }

  /**
   The loop fills the slots: every mapped slot that no other overlaps ends holding the word its relocation asks
   of the finished table, so two relocations that name one symbol hold the same address.
   */
  lemma {:induction false} SlotsHold(m: seq<Segment>, t: Tables, relocs: seq<Reloc>, bias: uint64, i: nat)
    requires i < |relocs| && SlotApart(relocs, bias, i) && Mapped(m, Target(relocs[i], bias), 8)
    ensures Read64(StoredFrom(m, t, relocs, bias), Target(relocs[i], bias)) == Some(Value(t, relocs[i], bias))
    decreases |relocs|
  {
    hide Value, WriteSpec, Mapped, MappedPrefix, ByteAt;
    var r, rest := relocs[0], relocs[1..];
    var v := Value(t, r, bias);
    var m1 := WriteSpec(m, Target(r, bias), Le(v, 8)).segments;
    if i == 0 {
      assert AwayFrom(rest, bias, Target(r, bias));
      Read64AfterWrite(m, Target(r, bias), v);
      OtherWordsKept(m1, t, rest, bias, Target(r, bias));
    } else {
      assert rest[i - 1] == relocs[i];
      StoreKeepsMapped(m, Target(r, bias), Le(v, 8), Target(relocs[i], bias), 8);
      SlotsHold(m1, t, rest, bias, i - 1);
    }
  }

  // ---------- what the slots hold in the end ----------

  /** The relocation's symbol has to be found outside the program, by this name. */
  predicate Asks(r: Reloc, name: string) {
    r.symbol.Some? && r.symbol.value.undefined && r.symbol.value.name == Some(name) && name != ""
  }

  /** The relocation's symbol is at an address of the program. */
  predicate Defined(r: Reloc) { r.symbol.Some? && !r.symbol.value.undefined && r.symbol.value.address != 0 }

  /** Slot `i` is mapped and no other slot overlaps it. */
  predicate SlotReady(m: seq<Segment>, relocs: seq<Reloc>, bias: uint64, i: nat) {
    i < |relocs| && SlotApart(relocs, bias, i) && Mapped(m, Target(relocs[i], bias), 8) && TRAMPOLINES + 8 * |relocs| < TWO64
  }

  /** The word in slot `i` when all relocations have been bound. */
  function FinalWord(m: seq<Segment>, relocs: seq<Reloc>, bias: uint64, i: nat): Option<uint64>
    requires i < |relocs|
  {
    Read64(Stored(m, EMPTY, relocs, bias), (relocs[i].offset + bias) % TWO64)
  }

  lemma FinalValue(m: seq<Segment>, relocs: seq<Reloc>, bias: uint64, i: nat)
    requires SlotReady(m, relocs, bias, i)
    ensures FinalWord(m, relocs, bias, i) == Some(Value(BindAll(EMPTY, relocs), relocs[i], bias))
  {
    hide Value, Stored, StoredFrom, BindAll, Mapped, Read64;
    assert Indexed(EMPTY);
    StoresUseFinalTable(m, EMPTY, relocs, bias);
    SlotsHold(m, BindAll(EMPTY, relocs), relocs, bias, i);
  }

  /**
   Relocations that need no outside symbol: against a defined symbol of nonzero address the slot ends with
   address, load bias and addend added up modulo 2^64; without a symbol, against a defined symbol of address 0,
   or against an undefined one without a name, with load bias and addend.
   */
  lemma InternalSlots(m: seq<Segment>, relocs: seq<Reloc>, bias: uint64, i: nat)
    requires SlotReady(m, relocs, bias, i)
    ensures Defined(relocs[i]) ==>
              FinalWord(m, relocs, bias, i) == Some((relocs[i].symbol.value.address + bias + relocs[i].addend) % TWO64)
    ensures !Defined(relocs[i]) && (forall name :: !Asks(relocs[i], name)) ==>
              FinalWord(m, relocs, bias, i) == Some((bias + relocs[i].addend) % TWO64)
  {
    hide FinalWord, BindAll, DataSymbol, SlotApart, Mapped;
    FinalValue(m, relocs, bias, i);
    var r := relocs[i];
    if r.symbol.Some? && r.symbol.value.name.Some? && r.symbol.value.name.value != "" && r.symbol.value.undefined {
      assert Asks(r, r.symbol.value.name.value);
    }
  }

  /** The C library's data symbols end at their fixed addresses, and none of them takes a place among the trampolines. */
  lemma DataSlots(m: seq<Segment>, relocs: seq<Reloc>, bias: uint64, i: nat)
    requires SlotReady(m, relocs, bias, i)
    ensures var word := FinalWord(m, relocs, bias, i);
            && (Asks(relocs[i], "stdout") ==> word == Some(0x7f01_0000))
            && (Asks(relocs[i], "stderr") ==> word == Some(0x7f01_0100))
            && (Asks(relocs[i], "stdin") ==> word == Some(0x7f01_0200))
            && (Asks(relocs[i], "optind") ==> word == Some(0x7f01_0300))
            && (Asks(relocs[i], "optarg") ==> word == Some(0x7f01_0308))
            && (Asks(relocs[i], "opterr") ==> word == Some(0x7f01_0310))
            && (Asks(relocs[i], "optopt") ==> word == Some(0x7f01_0318))
            && (Asks(relocs[i], "environ") ==> word == Some(0x7f01_0400))
    ensures forall p :: 0 <= p < |BindAll(EMPTY, relocs).thunks| ==> !IsDataName(BindAll(EMPTY, relocs).thunks[p].1)
  {
    hide FinalWord, BindAll, Position, SlotApart, Mapped;
    FinalValue(m, relocs, bias, i);
    NoDataThunks(relocs, bias);
  }

  predicate IsDataName(name: string) {
    name in {"stdout", "stderr", "stdin", "optind", "optarg", "opterr", "optopt", "environ"}
  }

  lemma DataNames(name: string)
    ensures DataSymbol(name) != 0 <==> IsDataName(name)
  {
  }

  lemma NoDataThunks(relocs: seq<Reloc>, bias: uint64)
    requires TRAMPOLINES + 8 * |relocs| < TWO64
    ensures forall p :: 0 <= p < |BindAll(EMPTY, relocs).thunks| ==> !IsDataName(BindAll(EMPTY, relocs).thunks[p].1)
  {
    hide BindAll, Value, Position, DataSymbol, IsDataName;
    TableIsBijection(relocs, bias);
    var thunks := BindAll(EMPTY, relocs).thunks;
    forall p | 0 <= p < |thunks|
      ensures !IsDataName(thunks[p].1)
    {
      DataNames(thunks[p].1);
    }
  }

  /** Every other outside name ends, in each of its slots, at the trampoline of its one place in the list. */
  lemma TrampolineSlots(m: seq<Segment>, relocs: seq<Reloc>, bias: uint64, i: nat, name: string)
    requires SlotReady(m, relocs, bias, i) && Asks(relocs[i], name) && !IsDataName(name)
    ensures var thunks := BindAll(EMPTY, relocs).thunks;
            exists p :: 0 <= p < |thunks| && thunks[p] == (0x7f00_0000 + 8 * p, name)
                        && FinalWord(m, relocs, bias, i) == Some(0x7f00_0000 + 8 * p)
                        && forall q :: 0 <= q < |thunks| && thunks[q].1 == name ==> q == p
  {
    hide BindAll, Value, DataSymbol, IsDataName, FinalWord;
    FinalValue(m, relocs, bias, i);
    DataNames(name);
    assert ThunkName(relocs[i]) == Some(name);
    TableIsBijection(relocs, bias);
    var thunks := BindAll(EMPTY, relocs).thunks;
    var p := Position(thunks, name);
    assert thunks[p].1 == name;
    assert thunks[p].0 == 0x7f00_0000 + 8 * p by { ThunkPlaces(relocs, p); }
  }

  lemma ThunkPlaces(relocs: seq<Reloc>, p: nat)
    requires TRAMPOLINES + 8 * |relocs| < TWO64 && p < |BindAll(EMPTY, relocs).thunks|
    ensures BindAll(EMPTY, relocs).thunks[p].0 == 0x7f00_0000 + 8 * p
  {
    hide BindAll;
    assert Indexed(EMPTY);
    BindAllKeeps(EMPTY, relocs);
  }

  /** Binds every relocation in order, storing each value as it is found. */
  method BindRelocations(mem: MemoryManager, relocs: seq<Reloc>, bias: uint64) returns (thunks: seq<(uint64, string)>)
    requires mem.Valid()
    modifies mem
    ensures mem.Valid()
    ensures thunks == BindAll(EMPTY, relocs).thunks
    ensures mem.State() == old(mem.State()).(segments := Stored(old(mem.segments), EMPTY, relocs, bias))
  {
    hide WriteSpec;
    ghost var before := mem.segments;
    var symbols: map<string, uint64> := map[];
    thunks := [];
    var k := 0;
    while k < |relocs|
      invariant 0 <= k <= |relocs|
      invariant mem.Valid()
      invariant BindAll(EMPTY, relocs) == BindAll(Tables(symbols, thunks), relocs[k..])
      invariant Stored(before, EMPTY, relocs, bias) == Stored(mem.segments, Tables(symbols, thunks), relocs[k..], bias)
      invariant mem.State() == old(mem.State()).(segments := mem.segments)
    {
      var r := relocs[k];
      assert relocs[k..][0] == r && relocs[k..][1..] == relocs[k + 1..];
      var name := ThunkName(r);
      if name.Some? && name.value !in symbols {
        var a := Wrap64(TRAMPOLINES + |symbols| * 8);
        symbols := symbols[name.value := a];
        thunks := thunks + [(a, name.value)];
      }
      var ok := mem.Write(Target(r, bias), Le(Value(Tables(symbols, thunks), r, bias), 8));
      k := k + 1;
    }
  }
}
