/** The four-level page tables as bytes in physical memory, and the tree they form. */
module PageTables {
  import opened MachineInts
  import opened PhysicalMemory
  import opened Entries

  type index9 = i: nat | i < 512

  /** A virtual page, named by the four indices the macros of memory.h extract. */
  datatype VPage = VPage(i4: index9, i3: index9, i2: index9, i1: index9)

  function PageOf(vaddr: nat): VPage {
    VPage(vaddr / 0x80_0000_0000 % 512, vaddr / 0x4000_0000 % 512, vaddr / 0x20_0000 % 512, vaddr / 0x1000 % 512)
  }

  /** The index macros, shift and mask: C defines the unsigned shift as the quotient by a power of two. */
  lemma {:induction false} MacrosNamePage(vaddr: nat)
    ensures PageOf(vaddr).i4 == BitAnd(vaddr / 0x80_0000_0000, 0x1ff)
    ensures PageOf(vaddr).i3 == BitAnd(vaddr / 0x4000_0000, 0x1ff)
    ensures PageOf(vaddr).i2 == BitAnd(vaddr / 0x20_0000, 0x1ff)
    ensures PageOf(vaddr).i1 == BitAnd(vaddr / 0x1000, 0x1ff)
  {
    hide BitAnd;
    IndexMask(vaddr / 0x80_0000_0000);
    IndexMask(vaddr / 0x4000_0000);
    IndexMask(vaddr / 0x20_0000);
    IndexMask(vaddr / 0x1000);
  }

  /** A table, named by the path of indices that leads to it from the PML4. */
  datatype Node = Pml4 | Pdpt(i4: index9) | Pd(i4: index9, i3: index9) | Pt(i4: index9, i3: index9, i2: index9)

  function Child(n: Node, i: index9): Node
    requires !n.Pt?
  {
    match n
    case Pml4 => Pdpt(i)
    case Pdpt(a) => Pd(a, i)
    case Pd(a, b) => Pt(a, b, i)
  }

  function Parent(n: Node): Node
    requires n != Pml4
  {
    match n
    case Pdpt(_) => Pml4
    case Pd(a, _) => Pdpt(a)
    case Pt(a, b, _) => Pd(a, b)
  }

  function PageIn(n: Node, i: index9): VPage
    requires n.Pt?
  {
    VPage(n.i4, n.i3, n.i2, i)
  }

  function TableOf(v: VPage): Node {
    Pt(v.i4, v.i3, v.i2)
  }

  /** Which frame each table occupies. */
  type Tables = map<Node, nat>
  type Pages = map<VPage, Leaf>

  ghost function UpperEntry(tables: Tables, n: Node, i: index9): Entry
    requires !n.Pt?
  {
    if Child(n, i) in tables && tables[Child(n, i)] < FRAMES then TableEntry(tables[Child(n, i)]) else EMPTY
  }

  ghost function LowestEntry(pages: Pages, n: Node, i: index9): Entry
    requires n.Pt?
  {
    if PageIn(n, i) in pages then LeafEntry(pages[PageIn(n, i)]) else EMPTY
  }

  /** Memory m holds exactly the tables `tables`, mapping exactly the pages `pages`:
      tables sit in distinct frames below 2^40, an upper entry is either all zero or the full pointer to the
      child table named by its position, and a leaf entry is either all zero or the page's leaf. */
  ghost predicate Tree(m: Memory, tables: Tables, pages: Pages) {
    && Pml4 in tables
    && (forall n :: n in tables ==> tables[n] < 0x1000_0000)
    && (forall n, n' :: n in tables && n' in tables && n != n' ==> tables[n] != tables[n'])
    && (forall n :: n in tables && n != Pml4 ==> Parent(n) in tables)
    && (forall n, i: index9 :: n in tables && !n.Pt? ==> Slot(m, tables[n], i) == UpperEntry(tables, n, i))
    && (forall n, i: index9 :: n in tables && n.Pt? ==> Slot(m, tables[n], i) == LowestEntry(pages, n, i))
    && (forall v :: v in pages ==> TableOf(v) in tables)
  }

  /** What the processor makes of a virtual page: the frame, and protection combined over the four levels. */
  datatype Translation = Fault | LargePage | Mapped(frame: nat, writable: bool, user: bool, noExecute: bool, pwt: bool)

  /** Hardware table walk in long mode with 4-Kbyte pages (AMD64 manual, volume 2, section 5.3.3); bit 7 of a
      level-3 or level-2 entry would select a large page. A page is writable or user-accessible only if all
      four levels say so, and not executable if any level forbids it. */
  function Walk(m: Memory, root: nat, v: VPage): Translation
    requires root < FRAMES
  {
    var e4 := Slot(m, root, v.i4);
    if !e4.present then Fault else
    var e3 := Slot(m, e4.ptr, v.i3);
    if !e3.present then Fault else if e3.bit7 then LargePage else
    var e2 := Slot(m, e3.ptr, v.i2);
    if !e2.present then Fault else if e2.bit7 then LargePage else
    var e1 := Slot(m, e2.ptr, v.i1);
    if !e1.present then Fault else
    Mapped(e1.ptr, e4.rw && e3.rw && e2.rw && e1.rw, e4.us && e3.us && e2.us && e1.us,
           e4.nx || e3.nx || e2.nx || e1.nx, e1.pwt)
  }

  /** The walk of a tree is the finite map: a page is mapped iff it is a key, to the frame it was last given,
      writable and no-execute as its leaf says, and never user-accessible. */
  lemma {:induction false} WalkIsLookup(m: Memory, tables: Tables, pages: Pages, v: VPage)
    requires Tree(m, tables, pages)
    ensures Walk(m, tables[Pml4], v)
         == if v in pages then Mapped(pages[v].frame, pages[v].rw, false, pages[v].nx, pages[v].pwt) else Fault
  {
    hide Slot;
    var n3, n2, n1 := Pdpt(v.i4), Pd(v.i4, v.i3), TableOf(v);
    assert Slot(m, tables[Pml4], v.i4) == UpperEntry(tables, Pml4, v.i4);
    if v in pages {
      assert Parent(n1) == n2 && Parent(n2) == n3;
    }
    if n3 in tables {
      assert Slot(m, tables[n3], v.i3) == UpperEntry(tables, n3, v.i3);
      if n2 in tables {
        assert Slot(m, tables[n2], v.i2) == UpperEntry(tables, n2, v.i2);
        if n1 in tables {
          assert Slot(m, tables[n1], v.i1) == LowestEntry(pages, n1, v.i1);
          assert PageIn(n1, v.i1) == v;
        }
      }
    }
  }

  /** Every word of an upper table: the child's address with bits 0 and 1 (present, writable), or zero. */
  lemma {:induction false} UpperWord(m: Memory, tables: Tables, pages: Pages, n: Node, i: index9)
    requires Tree(m, tables, pages) && n in tables && !n.Pt?
    ensures Load64(m, PAGE * tables[n] + 8 * i)
         == if Child(n, i) in tables then 3 + PAGE * tables[Child(n, i)] else 0
  {
    hide Slot, Encode, Load64;
    assert Slot(m, tables[n], i) == UpperEntry(tables, n, i);
    WordOfSlot(m, tables[n], i);
    EncodedSum(EMPTY);
    if Child(n, i) in tables {
      TableEntryWord(tables[Child(n, i)]);
    }
  }

  /** Every word of a lowest table: what the page's leaf asks for, bit by bit, or zero. */
  lemma {:induction false} LowestWord(m: Memory, tables: Tables, pages: Pages, n: Node, i: index9)
    requires Tree(m, tables, pages) && n in tables && n.Pt?
    ensures Load64(m, PAGE * tables[n] + 8 * i)
         == if PageIn(n, i) !in pages then 0
            else
              var l := pages[PageIn(n, i)];
              1 + (if l.rw then 2 else 0) + (if l.us then 4 else 0) + (if l.pwt then 8 else 0) + PAGE * l.frame
              + if l.nx then 0x8000_0000_0000_0000 else 0
  {
    hide Slot, Encode, Load64;
    assert Slot(m, tables[n], i) == LowestEntry(pages, n, i);
    WordOfSlot(m, tables[n], i);
    EncodedSum(EMPTY);
    if PageIn(n, i) in pages {
      LeafEntryWord(pages[PageIn(n, i)]);
    }
  }

  /** A freshly zeroed frame is an address space that maps nothing. */
  lemma {:induction false} EmptyTree(m: Memory, f: nat)
    requires f < 0x1000_0000
    requires forall i: index9 :: Slot(m, f, i) == EMPTY
    ensures Tree(m, map[Pml4 := f], map[])
  {
  }

  /** Bytes outside the tables do not matter. */
  lemma {:induction false} TreeElsewhere(m: Memory, m': Memory, tables: Tables, pages: Pages)
    requires Tree(m, tables, pages)
    requires forall n, i: index9 :: n in tables ==> Slot(m', tables[n], i) == Slot(m, tables[n], i)
    ensures Tree(m', tables, pages)
  {
    hide Slot, UpperEntry, LowestEntry;
  }

  lemma {:induction false} ChildInjective(n: Node, i: index9, k: Node, j: index9)
    requires !n.Pt? && !k.Pt?
    ensures Child(n, i) == Child(k, j) <==> n == k && i == j
  {
  }

  lemma {:induction false} NoPageBelow(tables: Tables, pages: Pages, n: Node, i: index9)
    requires n.Pt? && n !in tables
    requires forall v :: v in pages ==> TableOf(v) in tables
    ensures LowestEntry(pages, n, i) == EMPTY
  {
    assert TableOf(PageIn(n, i)) == n;
  }

  /** Hanging a zeroed frame below table n at index i adds one empty table and maps nothing new. */
  lemma {:induction false} AddTable(m: Memory, tables: Tables, pages: Pages, n: Node, i: index9, f: nat)
    requires Tree(m, tables, pages)
    requires n in tables && !n.Pt? && Child(n, i) !in tables
    requires f < 0x1000_0000 && (forall k :: k in tables ==> tables[k] != f)
    requires forall j: index9 :: Slot(m, f, j) == EMPTY
    ensures Tree(PutSlot(m, tables[n], i, TableEntry(f)), tables[Child(n, i) := f], pages)
  {
    hide Slot, PutSlot, LowestEntry;
    var c := Child(n, i);
    var tables' := tables[c := f];
    var m' := PutSlot(m, tables[n], i, TableEntry(f));
    assert Parent(c) == n;
    forall k, j: index9 | k in tables'
      ensures Slot(m', tables'[k], j)
           == if k == n && j == i then TableEntry(f) else Slot(m, tables'[k], j)
    {
      SlotAfterPut(m, tables[n], i, TableEntry(f), tables'[k], j);
    }
    forall k, j: index9 | k in tables' && !k.Pt?
      ensures Slot(m', tables'[k], j) == UpperEntry(tables', k, j)
    {
      assert k in tables ==> Slot(m, tables[k], j) == UpperEntry(tables, k, j);
      ChildInjective(n, i, k, j);
      if k == c {
        assert Child(c, j) !in tables by {
          assert Parent(Child(c, j)) == c;
        }
      }
    }
    forall k, j: index9 | k in tables' && k.Pt?
      ensures Slot(m', tables'[k], j) == LowestEntry(pages, k, j)
    {
      if k == c {
        NoPageBelow(tables, pages, c, j);
      } else {
        assert Slot(m, tables[k], j) == LowestEntry(pages, k, j);
      }
    }
  }

  /** Storing a leaf changes the map at that page and nowhere else. */
  lemma {:induction false} PutLeaf(m: Memory, tables: Tables, pages: Pages, v: VPage, l: Leaf)
    requires Tree(m, tables, pages) && TableOf(v) in tables
    ensures var f := tables[TableOf(v)];
      Tree(PutSlot(m, f, v.i1, WithLeaf(Slot(m, f, v.i1), l)), tables, pages[v := l])
  {
    hide Slot, PutSlot, UpperEntry;
    var f := tables[TableOf(v)];
    var m' := PutSlot(m, f, v.i1, WithLeaf(Slot(m, f, v.i1), l));
    assert Slot(m, f, v.i1) == LowestEntry(pages, TableOf(v), v.i1);
    forall k, j: index9 | k in tables
      ensures Slot(m', tables[k], j)
           == if k == TableOf(v) && j == v.i1 then LeafEntry(l) else Slot(m, tables[k], j)
    {
      SlotAfterPut(m, f, v.i1, WithLeaf(Slot(m, f, v.i1), l), tables[k], j);
    }
    forall k, j: index9 | k in tables && k.Pt?
      ensures Slot(m', tables[k], j) == LowestEntry(pages[v := l], k, j)
    {
      assert Slot(m, tables[k], j) == LowestEntry(pages, k, j);
      assert PageIn(k, j) == v <==> k == TableOf(v) && j == v.i1;
    }
  }

  /** Each table but the root is pointed to by exactly one entry of one table. */
  lemma {:induction false} OnePointerPerTable(m: Memory, tables: Tables, pages: Pages, n: Node, k: Node, j: index9)
    requires Tree(m, tables, pages)
    requires n in tables && n != Pml4 && k in tables && !k.Pt?
    ensures Slot(m, tables[k], j).present && TablePointer(Slot(m, tables[k], j)) == PAGE * tables[n]
       <==> Child(k, j) == n
  {
    hide Slot;
    assert Slot(m, tables[k], j) == UpperEntry(tables, k, j);
  }

  /** A virtual address whose bits 48 to 63 repeat bit 47. */
  predicate Canonical(vaddr: nat) {
    vaddr < 0x8000_0000_0000 || (TWO_64 - 0x8000_0000_0000 <= vaddr < TWO_64)
  }

  /** The 36-bit page number spelled by the four indices. */
  function PageNumber(v: VPage): nat {
    v.i1 + 512 * (v.i2 + 512 * (v.i3 + 512 * v.i4))
  }

  lemma {:induction false} LowDigit(a: index9, x: nat, b: index9, y: nat)
    requires a + 512 * x == b + 512 * y
    ensures a == b && x == y
  {
  }

  lemma {:induction false} PageNumberInjective(v: VPage, w: VPage)
    requires PageNumber(v) == PageNumber(w)
    ensures v == w
  {
    LowDigit(v.i1, v.i2 + 512 * (v.i3 + 512 * v.i4), w.i1, w.i2 + 512 * (w.i3 + 512 * w.i4));
    LowDigit(v.i2, v.i3 + 512 * v.i4, w.i2, w.i3 + 512 * w.i4);
    LowDigit(v.i3, v.i4, w.i3, w.i4);
  }

  lemma {:induction false} IndicesOf(vaddr: nat)
    ensures PageNumber(PageOf(vaddr))
         == vaddr / PAGE % 512
            + 512 * (vaddr / PAGE / 512 % 512
                     + 512 * (vaddr / PAGE / 512 / 512 % 512 + 512 * (vaddr / PAGE / 512 / 512 / 512 % 512)))
  {
    assert vaddr / 0x20_0000 == vaddr / PAGE / 512;
    assert vaddr / 0x4000_0000 == vaddr / 0x20_0000 / 512;
    assert vaddr / 0x80_0000_0000 == vaddr / 0x4000_0000 / 512;
  }

  lemma {:induction false} FourDigits(a: nat, b: nat, c: nat, d: nat, q: nat)
    requires a < 512 && b < 512 && c < 512 && d < 512
    ensures var low := a + 512 * (b + 512 * (c + 512 * d));
      (low + 0x10_0000_0000 * q) % 0x10_0000_0000 == low
  {
  }

  lemma {:induction false} PageNumberOf(vaddr: nat)
    ensures PageNumber(PageOf(vaddr)) == vaddr / PAGE % 0x10_0000_0000
  {
    hide PageOf, PageNumber;
    var p1 := vaddr / PAGE;
    var p2 := p1 / 512;
    var p3 := p2 / 512;
    var p4 := p3 / 512;
    IndicesOf(vaddr);
    FourDigits(p1 % 512, p2 % 512, p3 % 512, p4 % 512, p4 / 512);
    assert p1 == p1 % 512 + 512 * p2 && p2 == p2 % 512 + 512 * p3 && p3 == p3 % 512 + 512 * p4;
    assert p4 == p4 % 512 + 512 * (p4 / 512);
  }

  lemma {:induction false} CanonicalPages(p: nat, q: nat)
    requires p < 0x8_0000_0000 || 0xF_FFF8_0000_0000 <= p < 0x10_0000_0000_0000
    requires q < 0x8_0000_0000 || 0xF_FFF8_0000_0000 <= q < 0x10_0000_0000_0000
    requires p % 0x10_0000_0000 == q % 0x10_0000_0000
    ensures p == q
  {
  }

  /** Two canonical addresses use the same leaf entry only if they lie in the same page. */
  lemma {:induction false} LeafSlotIsPage(a: nat, b: nat)
    requires Canonical(a) && Canonical(b)
    ensures PageOf(a) == PageOf(b) <==> a / PAGE == b / PAGE
  {
    hide PageOf, PageNumber;
    PageNumberOf(a);
    PageNumberOf(b);
    if a / PAGE == b / PAGE {
      PageNumberInjective(PageOf(a), PageOf(b));
    }
    if PageOf(a) == PageOf(b) {
      CanonicalPages(a / PAGE, b / PAGE);
    }
  }
}
