/** The register file as the raw bytes that generated code loads and stores. */
module ContextLayout {
  import opened Words
  import opened Machine

  /** The part of the context that generated code can reach: everything up to the thread register. */
  datatype Image = Image(regs: Regs, pc: uint64)

  const WORDS: nat := 99
  const SIZE: nat := 792

  type RawContext = b: seq<byte> | |b| == 792 witness seq(792, _ => 0)

  /** The context as 8-byte words in declaration order. */
  function WordAt(im: Image, w: nat): uint64
    requires w < WORDS
  {
    if w < 31 then im.regs.x[w]
    else if w == 31 then im.regs.sp
    else if w == 32 then im.pc
    else if w == 33 then im.regs.pstate + TWO32 * im.regs.pad
    else if w < 98 then (if w % 2 == 0 then im.regs.v[w / 2 - 17].lo else im.regs.v[w / 2 - 17].hi)
    else im.regs.tpidr
  }

  function SetWord(im: Image, w: nat, val: uint64): Image
    requires w < WORDS
  {
    var s := im.regs;
    if w < 31 then im.(regs := s.(x := s.x[w := val]))
    else if w == 31 then im.(regs := s.(sp := val))
    else if w == 32 then im.(pc := val)
    else if w == 33 then im.(regs := s.(pstate := val % TWO32, pad := val / TWO32))
    else if w < 98 then
      var i := w / 2 - 17;
      im.(regs := s.(v := s.v[i := if w % 2 == 0 then s.v[i].(lo := val) else s.v[i].(hi := val)]))
    else im.(regs := s.(tpidr := val))
  }

  function Layout(im: Image): RawContext {
    seq(792, i requires 0 <= i < 792 => Le(WordAt(im, i / 8), 8)[i % 8])
  }

  function Load64(raw: RawContext, off: nat): uint64
    requires off + 8 <= SIZE
  {
    FromLe64(raw[off..off + 8])
  }

  function Store64(raw: RawContext, off: nat, val: uint64): RawContext
    requires off + 8 <= SIZE
  {
    raw[..off] + Le(val, 8) + raw[off + 8..]
  }

  /** Word `w` of the raw bytes. */
  function RawWord(raw: RawContext, w: nat): uint64
    requires w < WORDS
  {
    Load64(raw, 8 * w)
  }

  function ParseV(raw: RawContext, i: VecIndex): VecReg {
    VecReg(RawWord(raw, 34 + 2 * i), RawWord(raw, 35 + 2 * i))
  }

  function Parse(raw: RawContext): Image {
    Image(
      RegFile(
        seq(31, i requires 0 <= i < 31 => RawWord(raw, i)),
        RawWord(raw, 31), RawWord(raw, 33) % TWO32, RawWord(raw, 33) / TWO32,
        seq(32, i requires 0 <= i < 32 => ParseV(raw, i)),
        RawWord(raw, 98)),
      RawWord(raw, 32))
  }

  lemma SetWordAt(im: Image, w: nat, val: uint64, u: nat)
    requires w < WORDS && u < WORDS
    ensures WordAt(SetWord(im, w, val), u) == if u == w then val else WordAt(im, u)
  {
  }

  /** Loading any aligned word of the raw context reads the field stored there. */
  lemma LoadWord(im: Image, w: nat)
    requires w < WORDS
    ensures Load64(Layout(im), 8 * w) == WordAt(im, w)
  {
    hide WordAt, Le, FromLe;
    var l, d := Layout(im), Le(WordAt(im, w), 8);
    forall k | 0 <= k < 8
      ensures l[8 * w + k] == d[k]
    {
      assert (8 * w + k) / 8 == w && (8 * w + k) % 8 == k;
    }
    assert l[8 * w..8 * w + 8] == d;
    LeRoundTrip64(WordAt(im, w));
  }

  /** Storing an aligned word of the raw context sets exactly the field stored there. */
  lemma StoreWord(im: Image, w: nat, val: uint64)
    requires w < WORDS
    ensures Store64(Layout(im), 8 * w, val) == Layout(SetWord(im, w, val))
  {
    var l, r := Store64(Layout(im), 8 * w, val), Layout(SetWord(im, w, val));
    forall i | 0 <= i < SIZE
      ensures l[i] == r[i]
    {
      SetWordAt(im, w, val, i / 8);
    }
  }

  /** The byte offset of every field: general registers from 0, stack pointer, pc and process state, vectors from 272, thread register. */
  lemma FieldOffsets(im: Image)
    ensures forall n: GprIndex :: Load64(Layout(im), 8 * n) == im.regs.x[n]
    ensures Load64(Layout(im), 248) == im.regs.sp && Load64(Layout(im), 256) == im.pc
    ensures Load64(Layout(im), 264) % TWO32 == im.regs.pstate
    ensures forall n: VecIndex :: Load64(Layout(im), 272 + 16 * n) == im.regs.v[n].lo && Load64(Layout(im), 280 + 16 * n) == im.regs.v[n].hi
    ensures Load64(Layout(im), 784) == im.regs.tpidr
  {
    hide Layout, Load64;
    LoadWord(im, 31);
    LoadWord(im, 32);
    LoadWord(im, 33);
    LoadWord(im, 98);
    forall n: GprIndex
      ensures Load64(Layout(im), 8 * n) == im.regs.x[n]
    {
      LoadWord(im, n);
    }
    forall n: VecIndex
      ensures Load64(Layout(im), 272 + 16 * n) == im.regs.v[n].lo && Load64(Layout(im), 280 + 16 * n) == im.regs.v[n].hi
    {
      LoadWord(im, 34 + 2 * n);
      LoadWord(im, 35 + 2 * n);
    }
  }

  lemma RawWords(im: Image)
    ensures forall w :: 0 <= w < WORDS ==> RawWord(Layout(im), w) == WordAt(im, w)
  {
    forall w | 0 <= w < WORDS
      ensures RawWord(Layout(im), w) == WordAt(im, w)
    {
      LoadWord(im, w);
    }
  }

  lemma ParseVLayout(im: Image, i: VecIndex)
    ensures ParseV(Layout(im), i) == im.regs.v[i]
  {
    LoadWord(im, 34 + 2 * i);
    LoadWord(im, 35 + 2 * i);
  }

  /** The raw bytes determine the image: nothing is lost or shared between fields. */
  lemma ParseLayout(im: Image)
    ensures Parse(Layout(im)) == im
  {
    hide Layout, Load64, ParseV;
    RawWords(im);
    var p := Parse(Layout(im)).regs;
    assert p.x == im.regs.x;
    forall i | 0 <= i < 32
      ensures p.v[i] == im.regs.v[i]
    {
      ParseVLayout(im, i);
    }
    assert p.v == im.regs.v;
  }
}
