/** The 64-bit page-table entries. The four packed structs of memory.h place present, rw, us, pwt, pcd
    and accessed at bits 0-5, three single bits at 6-8 (named differently per level), three spare bits
    at 9-11, a 40-bit frame number at 12-51, eleven spare bits at 52-62 and nx at 63, so one datatype
    serves all levels. */
module Entries {
  import opened MachineInts
  import opened PhysicalMemory

  const TWO_40: nat := 0x100_0000_0000

  type bits3 = x: nat | x < 8
  type bits40 = x: nat | x < TWO_40
  type bits11 = x: nat | x < 2048

  datatype Entry = Entry(present: bool, rw: bool, us: bool, pwt: bool, pcd: bool, accessed: bool,
                         bit6: bool, bit7: bool, bit8: bool, avail: bits3, ptr: bits40, high: bits11, nx: bool)

  const EMPTY: Entry := Entry(false, false, false, false, false, false, false, false, false, 0, 0, 0, false)

  /** What map_page leaves in an entry that points to the table in frame f. */
  function TableEntry(f: bits40): Entry {
    EMPTY.(present := true, rw := true, ptr := f)
  }

  /** The part of a leaf entry that a caller of map_page chooses. */
  datatype Leaf = Leaf(frame: bits40, rw: bool, us: bool, pwt: bool, nx: bool)

  /** The leaf stores of map_page: they set six fields and keep the others. */
  function WithLeaf(e: Entry, l: Leaf): Entry {
    e.(present := true, rw := l.rw, us := l.us, pwt := l.pwt, nx := l.nx, ptr := l.frame)
  }

  function LeafEntry(l: Leaf): Entry {
    WithLeaf(EMPTY, l)
  }

  function Bit(b: bool): (x: nat)
    ensures x < 2
  {
    if b then 1 else 0
  }

  /** A word with lowest bit b and the remaining bits x. */
  function WithBit(b: bool, x: nat): nat {
    Bit(b) + 2 * x
  }

  predicate Odd(w: nat) {
    w % 2 == 1
  }

  function Half(w: nat): nat {
    w / 2
  }

  lemma {:induction false} SplitBit(b: bool, x: nat)
    ensures Odd(WithBit(b, x)) == b && Half(WithBit(b, x)) == x
  {
  }

  lemma {:induction false} JoinBit(w: nat)
    ensures WithBit(Odd(w), Half(w)) == w
  {
  }

  /** The bits from position 9 up. */
  function EncodeHigh(e: Entry): (w: nat)
    ensures w < 0x80_0000_0000_0000
  {
    e.avail + 8 * (e.ptr + 0x100_0000_0000 * (e.high + 2048 * Bit(e.nx)))
  }

  function Encode(e: Entry): (w: nat)
    ensures w < TWO_64
  {
    WithBit(e.present, WithBit(e.rw, WithBit(e.us, WithBit(e.pwt, WithBit(e.pcd, WithBit(e.accessed,
      WithBit(e.bit6, WithBit(e.bit7, WithBit(e.bit8, EncodeHigh(e))))))))))
  }

  /** Fills the fields from position 9 up. */
  function DecodeHigh(e: Entry, h: nat): Entry
    requires h < 0x80_0000_0000_0000
  {
    var p := h / 8;
    var t := p / 0x100_0000_0000;
    e.(avail := h % 8, ptr := p % 0x100_0000_0000, high := t % 2048, nx := t / 2048 == 1)
  }

  function NineHalves(w: nat): (h: nat)
    ensures w < TWO_64 ==> h < 0x80_0000_0000_0000
  {
    Half(Half(Half(Half(Half(Half(Half(Half(Half(w)))))))))
  }

  function Decode(w: nat): Entry
    requires w < TWO_64
  {
    var w1 := Half(w);
    var w2 := Half(w1);
    var w3 := Half(w2);
    var w4 := Half(w3);
    var w5 := Half(w4);
    var w6 := Half(w5);
    var w7 := Half(w6);
    var w8 := Half(w7);
    DecodeHigh(Entry(Odd(w), Odd(w1), Odd(w2), Odd(w3), Odd(w4), Odd(w5), Odd(w6), Odd(w7), Odd(w8), 0, 0, 0, false),
               NineHalves(w))
  }

  lemma {:induction false} DecodeEncodeHigh(d: Entry, e: Entry)
    ensures DecodeHigh(d, EncodeHigh(e)) == d.(avail := e.avail, ptr := e.ptr, high := e.high, nx := e.nx)
  {
    var h := EncodeHigh(e);
    assert h / 8 == e.ptr + 0x100_0000_0000 * (e.high + 2048 * Bit(e.nx));
  }

  lemma {:induction false} EncodeDecodeHigh(d: Entry, h: nat)
    requires h < 0x80_0000_0000_0000
    ensures EncodeHigh(DecodeHigh(d, h)) == h
  {
    var p := h / 8;
    var t := p / 0x100_0000_0000;
    assert t == t % 2048 + 2048 * (t / 2048);
    assert p == p % 0x100_0000_0000 + 0x100_0000_0000 * t;
  }

  /** The layout loses nothing: fields to word and back. */
  lemma {:induction false} DecodeEncode(e: Entry)
    ensures Decode(Encode(e)) == e
  {
    hide Odd, Half, WithBit, EncodeHigh, DecodeHigh, Bit;
    var h9 := EncodeHigh(e);
    var h8 := WithBit(e.bit8, h9);
    var h7 := WithBit(e.bit7, h8);
    var h6 := WithBit(e.bit6, h7);
    var h5 := WithBit(e.accessed, h6);
    var h4 := WithBit(e.pcd, h5);
    var h3 := WithBit(e.pwt, h4);
    var h2 := WithBit(e.us, h3);
    var h1 := WithBit(e.rw, h2);
    SplitBit(e.present, h1);
    SplitBit(e.rw, h2);
    SplitBit(e.us, h3);
    SplitBit(e.pwt, h4);
    SplitBit(e.pcd, h5);
    SplitBit(e.accessed, h6);
    SplitBit(e.bit6, h7);
    SplitBit(e.bit7, h8);
    SplitBit(e.bit8, h9);
    DecodeEncodeHigh(Entry(e.present, e.rw, e.us, e.pwt, e.pcd, e.accessed, e.bit6, e.bit7, e.bit8, 0, 0, 0, false), e);
  }

  lemma {:induction false} HighFieldsOnly(d: Entry, h: nat)
    requires h < 0x80_0000_0000_0000
    ensures var e := DecodeHigh(d, h);
      && e.present == d.present && e.rw == d.rw && e.us == d.us && e.pwt == d.pwt && e.pcd == d.pcd
      && e.accessed == d.accessed && e.bit6 == d.bit6 && e.bit7 == d.bit7 && e.bit8 == d.bit8
  {
  }

  /** Word to fields and back. */
  lemma {:induction false} EncodeDecode(w: nat)
    requires w < TWO_64
    ensures Encode(Decode(w)) == w
  {
    hide Odd, Half, WithBit, EncodeHigh, DecodeHigh;
    var w1 := Half(w);
    var w2 := Half(w1);
    var w3 := Half(w2);
    var w4 := Half(w3);
    var w5 := Half(w4);
    var w6 := Half(w5);
    var w7 := Half(w6);
    var w8 := Half(w7);
    JoinBit(w);
    JoinBit(w1);
    JoinBit(w2);
    JoinBit(w3);
    JoinBit(w4);
    JoinBit(w5);
    JoinBit(w6);
    JoinBit(w7);
    JoinBit(w8);
    var d := Entry(Odd(w), Odd(w1), Odd(w2), Odd(w3), Odd(w4), Odd(w5), Odd(w6), Odd(w7), Odd(w8), 0, 0, 0, false);
    EncodeDecodeHigh(d, NineHalves(w));
    HighFieldsOnly(d, NineHalves(w));
  }

  lemma {:induction false} OddIsRemainder()
    ensures forall w :: Odd(w) <==> w % 2 == 1
  {
  }

  lemma {:induction false} HighPositions(d: Entry, w: nat)
    requires w < TWO_64
    ensures w / 512 < 0x80_0000_0000_0000
    ensures var e := DecodeHigh(d, w / 512);
      && e.avail == w / 0x200 % 8 && e.ptr == w / 0x1000 % 0x100_0000_0000
      && e.high == w / 0x10_0000_0000_0000 % 0x800 && (e.nx <==> w / 0x8000_0000_0000_0000 == 1)
  {
    assert w / 512 / 8 == w / 4096;
    assert w / 4096 / 0x100_0000_0000 == w / 0x10_0000_0000_0000;
    assert w / 0x10_0000_0000_0000 / 2048 == w / 0x8000_0000_0000_0000;
  }

  lemma {:induction false} Halves(w: nat)
    ensures Half(w) == w / 2 && Half(Half(w)) == w / 4 && Half(Half(Half(w))) == w / 8
    ensures Half(Half(Half(Half(w)))) == w / 16 && Half(Half(Half(Half(Half(w))))) == w / 32
    ensures Half(Half(Half(Half(Half(Half(w)))))) == w / 64
    ensures Half(Half(Half(Half(Half(Half(Half(w))))))) == w / 128
    ensures Half(Half(Half(Half(Half(Half(Half(Half(w)))))))) == w / 256
    ensures NineHalves(w) == w / 512
  {
  }

  /** Which bits of a word each field is, counted from the lowest. */
  lemma {:induction false} BitPositions(w: nat)
    requires w < TWO_64
    ensures var e := Decode(w);
      && (e.present <==> w % 2 == 1) && (e.rw <==> w / 2 % 2 == 1) && (e.us <==> w / 4 % 2 == 1)
      && (e.pwt <==> w / 8 % 2 == 1) && (e.pcd <==> w / 16 % 2 == 1) && (e.accessed <==> w / 32 % 2 == 1)
      && (e.bit6 <==> w / 64 % 2 == 1) && (e.bit7 <==> w / 128 % 2 == 1) && (e.bit8 <==> w / 256 % 2 == 1)
      && e.avail == w / 0x200 % 8 && e.ptr == w / 0x1000 % 0x100_0000_0000
      && e.high == w / 0x10_0000_0000_0000 % 0x800 && (e.nx <==> w / 0x8000_0000_0000_0000 == 1)
  {
    hide Half, Odd, NineHalves, DecodeHigh;
    var w1 := Half(w);
    var w2 := Half(w1);
    var w3 := Half(w2);
    var w4 := Half(w3);
    var w5 := Half(w4);
    var w6 := Half(w5);
    var w7 := Half(w6);
    var w8 := Half(w7);
    var d := Entry(Odd(w), Odd(w1), Odd(w2), Odd(w3), Odd(w4), Odd(w5), Odd(w6), Odd(w7), Odd(w8), 0, 0, 0, false);
    Halves(w);
    OddIsRemainder();
    HighPositions(d, w);
    HighFieldsOnly(d, w / 512);
  }

  lemma {:induction false} DecodeZero()
    ensures Decode(0) == EMPTY
  {
  }

  /** The address map_page reads back from an entry: a 40-bit field shifted left by 12 in 40 bits. */
  function TablePointer(e: Entry): (a: nat)
    ensures a < TWO_40 && a % PAGE == 0
  {
    e.ptr * 4096 % TWO_40
  }

  /** Storing paddr >> 12 in a table entry and reading the pointer back is faithful exactly below 2^40. */
  lemma {:induction false} TablePointerFaithful(paddr: nat)
    requires paddr % PAGE == 0 && paddr < PHYS_SIZE
    ensures TablePointer(TableEntry(paddr / PAGE)) == paddr <==> paddr < TWO_40
  {
  }

  /** Entry i of the table in frame f. */
  function Slot(m: Memory, f: nat, i: nat): Entry
    requires f < FRAMES && i < 512
  {
    Decode(Load64(m, PAGE * f + 8 * i))
  }

  function PutSlot(m: Memory, f: nat, i: nat, e: Entry): Memory
    requires f < FRAMES && i < 512
  {
    Store64(m, PAGE * f + 8 * i, Encode(e))
  }

  function ZeroFrame(m: Memory, f: nat): Memory
    requires f < FRAMES
  {
    Fill(m, PAGE * f, PAGE, 0)
  }

  lemma {:induction false} SlotAfterPut(m: Memory, f: nat, i: nat, e: Entry, f': nat, i': nat)
    requires f < FRAMES && i < 512 && f' < FRAMES && i' < 512
    ensures Slot(PutSlot(m, f, i, e), f', i') == if f == f' && i == i' then e else Slot(m, f', i')
  {
    hide Encode, Decode, Load64, Store64, Fill;
    DecodeEncode(e);
    LoadAfterStore(m, PAGE * f + 8 * i, Encode(e), PAGE * f' + 8 * i');
  }

  lemma {:induction false} PutTwice(m: Memory, f: nat, i: nat, d: Entry, e: Entry)
    requires f < FRAMES && i < 512
    ensures PutSlot(PutSlot(m, f, i, d), f, i, e) == PutSlot(m, f, i, e)
  {
    hide Encode, Decode, Load64, Store64, Fill;
    StoreTwice(m, PAGE * f + 8 * i, Encode(d), Encode(e));
  }

  lemma {:induction false} PutCurrent(m: Memory, f: nat, i: nat)
    requires f < FRAMES && i < 512
    ensures PutSlot(m, f, i, Slot(m, f, i)) == m
  {
    hide Encode, Decode, Load64, Store64, Fill;
    EncodeDecode(Load64(m, PAGE * f + 8 * i));
    StoreLoaded(m, PAGE * f + 8 * i);
  }

  lemma {:induction false} SlotAfterZero(m: Memory, f: nat, f': nat, i': nat)
    requires f < FRAMES && f' < FRAMES && i' < 512
    ensures Slot(ZeroFrame(m, f), f', i') == if f == f' then EMPTY else Slot(m, f', i')
  {
    hide Encode, Decode, Load64, Store64, Fill;
    DecodeZero();
    LoadAfterFill(m, PAGE * f, PAGE, PAGE * f' + 8 * i');
  }

  lemma {:induction false} SlotAfterByteUpdate(m: Memory, a: nat, x: bv8, f: nat, i: nat)
    requires a < PHYS_SIZE && f < FRAMES && i < 512
    requires a / PAGE != f
    ensures Slot(m[a := x], f, i) == Slot(m, f, i)
  {
    hide Encode, Decode, Load64, Store64, Fill;
    LoadAfterByteUpdate(m, a, x, PAGE * f + 8 * i);
  }

  /** The word that encodes an entry is the sum of its fields at their places. */
  lemma {:induction false} EncodedSum(e: Entry)
    ensures Encode(e)
         == Bit(e.present) + 2 * Bit(e.rw) + 4 * Bit(e.us) + 8 * Bit(e.pwt) + 16 * Bit(e.pcd)
            + 32 * Bit(e.accessed) + 64 * Bit(e.bit6) + 128 * Bit(e.bit7) + 256 * Bit(e.bit8)
            + 0x200 * e.avail + 0x1000 * e.ptr + 0x10_0000_0000_0000 * e.high + 0x8000_0000_0000_0000 * Bit(e.nx)
  {
    hide Bit;
    assert 512 * EncodeHigh(e)
        == 0x200 * e.avail + 0x1000 * e.ptr + 0x10_0000_0000_0000 * e.high + 0x8000_0000_0000_0000 * Bit(e.nx);
  }

  /** The word of an entry that points to the table in frame f. */
  lemma {:induction false} TableEntryWord(f: bits40)
    ensures Encode(TableEntry(f)) == 3 + PAGE * f
  {
    hide Encode;
    EncodedSum(TableEntry(f));
  }

  /** The word of a leaf entry that had nothing in it before. */
  lemma {:induction false} LeafEntryWord(l: Leaf)
    ensures Encode(LeafEntry(l))
         == 1 + (if l.rw then 2 else 0) + (if l.us then 4 else 0) + (if l.pwt then 8 else 0) + PAGE * l.frame
            + (if l.nx then 0x8000_0000_0000_0000 else 0)
  {
    hide Encode;
    EncodedSum(LeafEntry(l));
  }

  lemma {:induction false} WordOfSlot(m: Memory, f: nat, i: nat)
    requires f < FRAMES && i < 512
    ensures Load64(m, PAGE * f + 8 * i) == Encode(Slot(m, f, i))
  {
    hide Encode, Decode, Load64;
    EncodeDecode(Load64(m, PAGE * f + 8 * i));
  }

  /** The fields of an entry are these bits of the word in memory. */
  lemma {:induction false} SlotBits(m: Memory, f: nat, i: nat)
    requires f < FRAMES && i < 512
    ensures var w, e := Load64(m, PAGE * f + 8 * i), Slot(m, f, i);
      && (e.present <==> w % 2 == 1) && (e.rw <==> w / 2 % 2 == 1) && (e.us <==> w / 4 % 2 == 1)
      && (e.pwt <==> w / 8 % 2 == 1) && (e.pcd <==> w / 16 % 2 == 1) && (e.accessed <==> w / 32 % 2 == 1)
      && (e.bit6 <==> w / 64 % 2 == 1) && (e.bit7 <==> w / 128 % 2 == 1) && (e.bit8 <==> w / 256 % 2 == 1)
      && e.avail == w / 0x200 % 8 && e.ptr == w / 0x1000 % 0x100_0000_0000
      && e.high == w / 0x10_0000_0000_0000 % 0x800 && (e.nx <==> w / 0x8000_0000_0000_0000 == 1)
  {
    hide Decode, Load64;
    BitPositions(Load64(m, PAGE * f + 8 * i));
  }
}
