/** map_page as a function on physical memory, and its refinement of the finite map. */
module PagingOverMemory {
  import opened MachineInts
  import opened PhysicalMemory
  import opened Entries
  import opened Regions
  import opened Bitmap
  import opened BootMap
  import opened FrameAllocation
  import opened PageTables
  import opened AbstractPaging

  datatype State = State(mem: Memory, index: nat)

  /** A call that succeeds at all takes one of the pages of the regions. */
  lemma {:induction false} InBounds(l: Layout, m: Memory, index: nat, zeroed: bool)
    requires Roomy(l) && index <= Total(l.regions)
    ensures FrameAlloc(l, m, index, zeroed).Done? ==>
      var a := FrameAlloc(l, m, index, zeroed).value; a.index <= Total(l.regions) && a.addr / PAGE < FRAMES
  {
    hide Total, TakenAt, RawWalk;
    WalkInSound(l, NextAvailable(m, l, index));
  }

  /** One level of the walk in map_page: follow entry i of the table in frame f, or hang a new table there. */
  function Descend(l: Layout, s: State, f: nat, i: index9): (r: Outcome<(State, nat)>)
    requires Roomy(l) && s.index <= Total(l.regions) && f < FRAMES
    ensures r.Done? ==> r.value.0.index <= Total(l.regions) && r.value.1 < FRAMES
  {
    InBounds(l, s.mem, s.index, true);
    var e := Slot(s.mem, f, i);
    if e.present then Done((s, TablePointer(e) / PAGE))
    else match FrameAlloc(l, s.mem, s.index, true)
      case Halt(site) => Halt(site)
      case Done(a) =>
        var child := a.addr / PAGE;
        var e' := Slot(a.mem, f, i).(present := true, rw := true, ptr := child % TWO_40);
        Done((State(PutSlot(a.mem, f, i, e'), a.index), child))
  }

  function MapPage(l: Layout, s: State, root: nat, op: Op): (r: Outcome<State>)
    requires Roomy(l) && s.index <= Total(l.regions) && root < FRAMES && op.Map?
    ensures r.Done? ==> r.value.index <= Total(l.regions)
  {
    var v := PageOf(op.vaddr);
    match Descend(l, s, root, v.i4)
    case Halt(site) => Halt(site)
    case Done((s3, pdpt)) =>
      match Descend(l, s3, pdpt, v.i3)
      case Halt(site) => Halt(site)
      case Done((s2, pd)) =>
        match Descend(l, s2, pd, v.i2)
        case Halt(site) => Halt(site)
        case Done((s1, pt)) =>
          Done(State(PutSlot(s1.mem, pt, v.i1, WithLeaf(Slot(s1.mem, pt, v.i1), LeafOf(op))), s1.index))
  }

  /** The frames that the first `index` successful calls of frame_alloc return. */
  function FramesBelow(l: Layout, index: nat): (fs: set<nat>)
    requires Sound(l) && index <= Total(l.regions)
  {
    if index == 0 then {} else FramesBelow(l, index - 1) + {PageFrame(l, index - 1)}
  }

  /** Frame f has been returned by frame_alloc. */
  ghost predicate HandedOut(l: Layout, index: nat, f: nat)
    requires Sound(l) && index <= Total(l.regions)
  {
    f in FramesBelow(l, index)
  }

  lemma {:induction false} HandedOutAt(l: Layout, index: nat, f: nat) returns (j: nat)
    requires Sound(l) && index <= Total(l.regions) && HandedOut(l, index, f)
    ensures j < index && PageFrame(l, j) == f
  {
    hide Sound, Total, PageFrame;
    if PageFrame(l, index - 1) == f {
      j := index - 1;
    } else {
      j := HandedOutAt(l, index - 1, f);
    }
  }

  lemma {:induction false} HandedOutBy(l: Layout, index: nat, j: nat)
    requires Sound(l) && j < index <= Total(l.regions)
    ensures HandedOut(l, index, PageFrame(l, j))
    decreases index
  {
    hide Sound, Total, PageFrame;
    if j == index - 1 {
    } else {
      HandedOutBy(l, index - 1, j);
    }
  }

  ghost predicate HoldsTable(tables: Tables, f: nat) {
    exists n :: n in tables && tables[n] == f
  }

  /** Every table and every frame of a client has been handed out, and no frame is both. */
  ghost predicate Owned(l: Layout, index: nat, a: Space)
    requires Sound(l) && index <= Total(l.regions)
  {
    && (forall n :: n in a.tables ==> HandedOut(l, index, a.tables[n]))
    && (forall f :: f in a.taken ==> HandedOut(l, index, f) && !HoldsTable(a.tables, f))
  }

  /** State s of memory and allocator represents the address space a. */
  ghost predicate Models(l: Layout, s: State, a: Space) {
    && Roomy(l) && InOrder(l, s.mem, s.index) && a.index == s.index && Trusted(l, s.index)
    && Tree(s.mem, a.tables, a.pages)
    && Owned(l, s.index, a)
  }

  lemma {:induction false} NextFrameIsNew(l: Layout, index: nat, f: nat)
    requires Sound(l) && Trusted(l, index + 1) && index < Total(l.regions) && HandedOut(l, index, f)
    ensures PageFrame(l, index) != f && HandedOut(l, index + 1, f)
  {
    hide Sound, Total, PageFrame, OffsetsSmall;
    var j := HandedOutAt(l, index, f);
    FramesDiffer(l, index + 1, j, index);
  }

  /** The bitmap byte of an allocatable frame lies in no allocatable frame. */
  lemma {:induction false} BitmapByteApart(l: Layout, j: nat, f: nat)
    requires Roomy(l) && j < Total(l.regions) && HandedOut(l, j, f)
    ensures (l.bitmap + j / 2) / PAGE != f
  {
    hide PageFrame, Total, WellFormedRegions;
    var k := HandedOutAt(l, j, f);
    PageFrameSafe(l, k);
    assert j / 2 < l.bitmapLength;
  }

  lemma {:induction false} TakenKeepsSlot(l: Layout, m: Memory, j: nat, zeroed: bool, f: nat, i: index9)
    requires Sound(l) && j < Total(l.regions) && f < FRAMES && PageFrame(l, j) != f && (l.bitmap + j / 2) / PAGE != f
    ensures Slot(Taken(l, m, j, zeroed), f, i) == Slot(m, f, i)
  {
    hide PageFrame, Total, Slot, SetFlags, GetFlags, Fill;
    var flags := Nibble(m, l.bitmap, j) & 7;
    var m1 := PutNibble(m, l.bitmap, j, flags);
    SlotAfterByteUpdate(m, l.bitmap + j / 2, SetFlags(m[l.bitmap + j / 2], Shift(j), flags), f, i);
    SlotAfterZero(m1, PageFrame(l, j), f, i);
  }

  /** Taking a frame for any purpose leaves every frame handed out before it byte for byte alone. */
  lemma {:induction false} TakenKeepsFrame(l: Layout, m: Memory, j: nat, zeroed: bool, f: nat)
    requires Roomy(l) && Trusted(l, j + 1) && j < Total(l.regions) && f < FRAMES && HandedOut(l, j, f)
    ensures forall i: index9 :: Slot(Taken(l, m, j, zeroed), f, i) == Slot(m, f, i)
    ensures forall x :: PAGE * f <= x < PAGE * f + PAGE ==> Taken(l, m, j, zeroed)[x] == m[x]
  {
    hide PageFrame, Total, Slot, Trusted, Taken, HandedOut, Sound;
    NextFrameIsNew(l, j, f);
    BitmapByteApart(l, j, f);
    TakenFootprint(l, m, j, zeroed);
    forall i: index9
      ensures Slot(Taken(l, m, j, zeroed), f, i) == Slot(m, f, i)
    {
      TakenKeepsSlot(l, m, j, zeroed, f, i);
    }
  }

  lemma {:induction false} ZeroedFrameIsEmpty(l: Layout, m: Memory, j: nat)
    requires Sound(l) && j < Total(l.regions)
    ensures forall i: index9 :: Slot(Taken(l, m, j, true), PageFrame(l, j), i) == EMPTY
  {
    hide Slot, Total, PageFrame, GetFlags, SetFlags;
    var f := PageFrame(l, j);
    var m1 := PutNibble(m, l.bitmap, j, Nibble(m, l.bitmap, j) & 7);
    forall i: index9
      ensures Slot(Taken(l, m, j, true), f, i) == EMPTY
    {
      SlotAfterZero(m1, f, f, i);
    }
  }

  /** The frame handed out next is neither a table nor a client's. */
  lemma {:induction false} OwnedNext(l: Layout, index: nat, a: Space)
    requires Sound(l) && Trusted(l, index + 1) && index < Total(l.regions) && Owned(l, index, a)
    ensures Owned(l, index + 1, a)
    ensures !HoldsTable(a.tables, PageFrame(l, index)) && PageFrame(l, index) !in a.taken
  {
    hide Sound, Total, PageFrame, Trusted, HandedOut;
    forall n | n in a.tables
      ensures HandedOut(l, index + 1, a.tables[n]) && PageFrame(l, index) != a.tables[n]
    {
      NextFrameIsNew(l, index, a.tables[n]);
    }
    forall f | f in a.taken
      ensures HandedOut(l, index + 1, f) && PageFrame(l, index) != f
    {
      NextFrameIsNew(l, index, f);
    }
  }

  lemma {:induction false} TablesKept(l: Layout, m: Memory, j: nat, a: Space, zeroed: bool)
    requires Roomy(l) && Trusted(l, j + 1) && j < Total(l.regions) && Owned(l, j, a)
    requires forall n :: n in a.tables ==> a.tables[n] < FRAMES
    ensures forall n, i: index9 :: n in a.tables ==>
              Slot(Taken(l, m, j, zeroed), a.tables[n], i) == Slot(m, a.tables[n], i)
  {
    hide Total, PageFrame, Taken, Slot, Sound, Trusted, HandedOut;
    forall n | n in a.tables
      ensures forall i: index9 :: Slot(Taken(l, m, j, zeroed), a.tables[n], i) == Slot(m, a.tables[n], i)
    {
      TakenKeepsFrame(l, m, j, zeroed, a.tables[n]);
    }
  }

  lemma {:induction false} TableFrames(l: Layout, s: State, a: Space)
    requires Models(l, s, a)
    ensures forall n :: n in a.tables ==> a.tables[n] < FRAMES
  {
  }

  /** The next frame can be taken: tables, mappings and the frames of clients stay as they are. */
  lemma {:induction false} NextTaken(l: Layout, s: State, a: Space, zeroed: bool)
    requires Models(l, s, a) && s.index < Total(l.regions) && Trusted(l, s.index + 1)
    ensures Models(l, State(Taken(l, s.mem, s.index, zeroed), s.index + 1), a.(index := a.index + 1))
    ensures !HoldsTable(a.tables, PageFrame(l, s.index)) && PageFrame(l, s.index) !in a.taken
  {
    hide Total, PageFrame, Taken, Slot, Sound, Trusted, Tree, InOrder, HandedOut, HoldsTable;
    AllocInOrder(l, s.mem, s.index, zeroed);
    OwnedNext(l, s.index, a);
    TableFrames(l, s, a);
    TablesKept(l, s.mem, s.index, a, zeroed);
    TreeElsewhere(s.mem, Taken(l, s.mem, s.index, zeroed), a.tables, a.pages);
  }

  lemma {:induction false} NewestHandedOut(l: Layout, index: nat)
    requires Sound(l) && index < Total(l.regions)
    ensures HandedOut(l, index + 1, PageFrame(l, index))
  {
    hide Sound, Total, PageFrame;
  }

  /** Any client may take a frame: the address space does not notice. */
  lemma {:induction false} TakeSimulates(l: Layout, s: State, a: Space, zeroed: bool)
    requires Models(l, s, a) && s.index < Total(l.regions) && Trusted(l, s.index + 1)
    ensures Models(l, State(Taken(l, s.mem, s.index, zeroed), s.index + 1),
                   a.(index := a.index + 1, taken := a.taken + {PageFrame(l, s.index)}))
  {
    hide Total, PageFrame, Taken, Sound, Trusted, InOrder, Tree, HoldsTable;
    NextTaken(l, s, a, zeroed);
    NewestHandedOut(l, s.index);
  }

  function Written(m: Memory, op: Op): Memory
    requires op.Write?
  {
    m[PAGE * op.frame + op.offset := op.value]
  }

  /** Bytes of frames handed out are no bytes of the bitmap. */
  lemma {:induction false} ByteKeepsOrder(l: Layout, s: State, f: nat, offset: nat, b: bv8)
    requires Roomy(l) && InOrder(l, s.mem, s.index) && HandedOut(l, s.index, f) && f < FRAMES && offset < PAGE
    ensures InOrder(l, s.mem[PAGE * f + offset := b], s.index)
  {
    hide Total, WellFormedRegions, PageFrame, GetFlags;
    var k := HandedOutAt(l, s.index, f);
    PageFrameSafe(l, k);
    var m' := s.mem[PAGE * f + offset := b];
    forall j: nat | j < 2 * l.bitmapLength
      ensures Nibble(m', l.bitmap, j) == Nibble(s.mem, l.bitmap, j)
    {
      assert m'[l.bitmap + j / 2] == s.mem[l.bitmap + j / 2];
    }
  }

  /** And may write into it: neither the address space nor the allocator does. */
  lemma {:induction false} WriteSimulates(l: Layout, s: State, a: Space, op: Op)
    requires Models(l, s, a) && op.Write? && op.frame in a.taken
    ensures Models(l, State(Written(s.mem, op), s.index), a)
  {
    hide Total, PageFrame, Slot, Trusted, Sound, InOrder, Tree, HandedOut;
    TableFrames(l, s, a);
    var m' := Written(s.mem, op);
    forall n | n in a.tables
      ensures forall i: index9 :: Slot(m', a.tables[n], i) == Slot(s.mem, a.tables[n], i)
    {
      assert HoldsTable(a.tables, a.tables[n]);
      assert (PAGE * op.frame + op.offset) / PAGE == op.frame;
      forall i: index9
        ensures Slot(m', a.tables[n], i) == Slot(s.mem, a.tables[n], i)
      {
        SlotAfterByteUpdate(s.mem, PAGE * op.frame + op.offset, op.value, a.tables[n], i);
      }
    }
    TreeElsewhere(s.mem, m', a.tables, a.pages);
    ByteKeepsOrder(l, s, op.frame, op.offset, op.value);
  }

  /** Storing into a slot of a table touches no flag of the bitmap. */
  lemma {:induction false} PutSlotKeepsOrder(l: Layout, s: State, f: nat, i: index9, e: Entry)
    requires Roomy(l) && InOrder(l, s.mem, s.index) && HandedOut(l, s.index, f) && f < FRAMES
    ensures InOrder(l, PutSlot(s.mem, f, i, e), s.index)
  {
    hide Total, WellFormedRegions, Encode, PageFrame;
    var k := HandedOutAt(l, s.index, f);
    PageFrameSafe(l, k);
    var m' := PutSlot(s.mem, f, i, e);
    forall j: nat | j < 2 * l.bitmapLength
      ensures Nibble(m', l.bitmap, j) == Nibble(s.mem, l.bitmap, j)
    {
      assert m'[l.bitmap + j / 2] == s.mem[l.bitmap + j / 2];
    }
  }

  lemma {:induction false} IndexInRange(l: Layout, s: State)
    requires Roomy(l) && InOrder(l, s.mem, s.index)
    ensures s.index <= Total(l.regions)
  {
  }

  lemma {:induction false} PointerOf(f: nat)
    requires f < 0x1000_0000
    ensures TablePointer(TableEntry(f)) / PAGE == f && TableEntry(f).present
  {
  }

  /** A frame that is neither a table nor a client's may become a table. */
  lemma {:induction false} OwnedTable(l: Layout, index: nat, a: Space, n: Node, f: nat)
    requires Sound(l) && index <= Total(l.regions) && Owned(l, index, a)
    requires HandedOut(l, index, f) && f !in a.taken
    ensures Owned(l, index, a.(tables := a.tables[n := f]))
  {
    hide Sound, Total, HandedOut;
    var tables' := a.tables[n := f];
    forall g | g in a.taken
      ensures !HoldsTable(tables', g)
    {
      assert !HoldsTable(a.tables, g);
      forall k | k in tables'
        ensures tables'[k] != g
      {
        assert k != n ==> a.tables[k] == tables'[k];
      }
    }
  }

  lemma {:induction false} TableAdded(m: Memory, a: Space, n: Node, i: index9, f: nat)
    requires Tree(m, a.tables, a.pages) && n in a.tables && !n.Pt? && Child(n, i) !in a.tables
    requires f < 0x1000_0000 && !HoldsTable(a.tables, f) && forall j: index9 :: Slot(m, f, j) == EMPTY
    ensures a.tables[n] < FRAMES && Slot(m, a.tables[n], i) == EMPTY
    ensures Tree(PutSlot(m, a.tables[n], i, TableEntry(f)), a.tables[Child(n, i) := f], a.pages)
  {
    hide Slot, PutSlot;
    assert Slot(m, a.tables[n], i) == UpperEntry(a.tables, n, i);
    forall k | k in a.tables
      ensures a.tables[k] != f
    {
      assert a.tables[k] == f ==> HoldsTable(a.tables, f);
    }
    AddTable(m, a.tables, a.pages, n, i, f);
  }

  lemma {:induction false} TableHandedOut(l: Layout, index: nat, a: Space, n: Node)
    requires Sound(l) && index <= Total(l.regions) && Owned(l, index, a) && n in a.tables
    ensures HandedOut(l, index, a.tables[n])
  {
    hide Sound, Total, HandedOut;
  }

  lemma {:induction false} NewTableSimulates(l: Layout, s: State, a: Space, n: Node, i: index9)
    requires Models(l, s, a) && n in a.tables && !n.Pt? && Child(n, i) !in a.tables
    requires s.index < Total(l.regions) && Trusted(l, s.index + 1)
    ensures var f := PageFrame(l, s.index);
      var m1 := Taken(l, s.mem, s.index, true);
      && Slot(m1, a.tables[n], i) == EMPTY
      && Models(l, State(PutSlot(m1, a.tables[n], i, TableEntry(f)), s.index + 1),
                a.(tables := a.tables[Child(n, i) := f], index := s.index + 1))
  {
    hide Total, PageFrame, Slot, PutSlot, Sound, Taken, InOrder, OffsetsSmall, Tree, HandedOut, Owned;
    var c := Child(n, i);
    var f := PageFrame(l, s.index);
    var m1 := Taken(l, s.mem, s.index, true);
    NextTaken(l, s, a, true);
    ZeroedFrameIsEmpty(l, s.mem, s.index);
    TableAdded(m1, a, n, i, f);
    NewestHandedOut(l, s.index);
    TableHandedOut(l, s.index + 1, a.(index := s.index + 1), n);
    PutSlotKeepsOrder(l, State(m1, s.index + 1), a.tables[n], i, TableEntry(f));
    OwnedTable(l, s.index + 1, a.(index := s.index + 1), c, f);
  }

  /** One level of map_page does what Ensure does: same outcome, same table frame, and the states still match. */
  lemma {:induction false} DescendSimulates(l: Layout, s: State, a: Space, n: Node, i: index9)
    requires Models(l, s, a) && n in a.tables && !n.Pt?
    requires TableCovered(l, a, Child(n, i))
    ensures Ensure(l, a, Child(n, i)).Halt? <==> Descend(l, s, a.tables[n], i).Halt?
    ensures Ensure(l, a, Child(n, i)).Done? ==>
      var b := Ensure(l, a, Child(n, i)).value;
      var (s', f) := Descend(l, s, a.tables[n], i).value;
      && Models(l, s', b) && Child(n, i) in b.tables && b.tables[Child(n, i)] == f
      && (forall k :: k in a.tables ==> k in b.tables && b.tables[k] == a.tables[k])
  {
    hide Total, PageFrame, Slot, PutSlot, Sound, Taken, InOrder, FrameAlloc, HandedOut, Trusted;
    var c := Child(n, i);
    assert Slot(s.mem, a.tables[n], i) == UpperEntry(a.tables, n, i);
    if c !in a.tables {
      IndexInRange(l, s);
      AllocInOrder(l, s.mem, s.index, true);
      if s.index < Total(l.regions) {
        NewTableSimulates(l, s, a, n, i);
      }
    } else {
      PointerOf(a.tables[c]);
    }
  }

  lemma {:induction false} Unfold(l: Layout, s: State, a: Space)
    requires Models(l, s, a)
    ensures Roomy(l) && Sound(l) && Trusted(l, s.index) && s.index == a.index <= Total(l.regions)
    ensures Pml4 in a.tables && a.tables[Pml4] < FRAMES
  {
  }

  lemma {:induction false} PutLeafSimulates(l: Layout, s: State, a: Space, v: VPage, leaf: Leaf)
    requires Models(l, s, a) && TableOf(v) in a.tables
    ensures var f := a.tables[TableOf(v)];
      Models(l, State(PutSlot(s.mem, f, v.i1, WithLeaf(Slot(s.mem, f, v.i1), leaf)), s.index),
             a.(pages := a.pages[v := leaf]))
  {
    hide Total, Slot, PutSlot, Sound, InOrder, Tree;
    TableFrames(l, s, a);
    var f := a.tables[TableOf(v)];
    PutLeaf(s.mem, a.tables, a.pages, v, leaf);
    PutSlotKeepsOrder(l, s, f, v.i1, WithLeaf(Slot(s.mem, f, v.i1), leaf));
  }

  /** map_page refines the update of the finite map: it halts exactly when the abstract step does, and
      otherwise the new state represents the map with the one page changed. */
  lemma {:induction false} MapPageSimulates(l: Layout, s: State, a: Space, op: Op)
    requires Models(l, s, a) && op.Map? && OpCovered(l, a, op)
    ensures Step(l, a, op).Halt? <==> MapPage(l, s, a.tables[Pml4], op).Halt?
    ensures Step(l, a, op).Done? ==>
      Models(l, MapPage(l, s, a.tables[Pml4], op).value, Step(l, a, op).value)
    ensures Step(l, a, op).Done? ==>
      forall k :: k in a.tables ==>
        (k in Step(l, a, op).value.tables && Step(l, a, op).value.tables[k] == a.tables[k])
  {
    hide Total, Slot, PutSlot, Sound, InOrder, Ensure, Descend, HandedOut, PageOf, LeafOf, Models, Trusted, OpNeed,
         TableCovered;
    Unfold(l, s, a);
    LevelsCovered(l, a, op);
    var v := PageOf(op.vaddr);
    DescendSimulates(l, s, a, Pml4, v.i4);
    if Ensure(l, a, Pdpt(v.i4)).Done? {
      var a3 := Ensure(l, a, Pdpt(v.i4)).value;
      var (s3, pdpt) := Descend(l, s, a.tables[Pml4], v.i4).value;
      DescendSimulates(l, s3, a3, Pdpt(v.i4), v.i3);
      if Ensure(l, a3, Pd(v.i4, v.i3)).Done? {
        var a2 := Ensure(l, a3, Pd(v.i4, v.i3)).value;
        var (s2, pd) := Descend(l, s3, pdpt, v.i3).value;
        DescendSimulates(l, s2, a2, Pd(v.i4, v.i3), v.i2);
        if Ensure(l, a2, TableOf(v)).Done? {
          var a1 := Ensure(l, a2, TableOf(v)).value;
          var (s1, pt) := Descend(l, s2, pd, v.i2).value;
          PutLeafSimulates(l, s1, a1, v, LeafOf(op));
        }
      }
    }
  }
}
