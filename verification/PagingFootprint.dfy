/** Which bytes of physical memory one map_page call may change. */
module PagingFootprint {
  import opened MachineInts
  import opened PhysicalMemory
  import opened Entries
  import opened Regions
  import opened BootMap
  import opened FrameAllocation
  import opened PageTables
  import opened AbstractPaging
  import opened PagingOverMemory
  import opened PagingTheorems

  /** Byte x belongs to entry i of the table in frame f. */
  predicate SlotByte(f: nat, i: nat, x: nat) {
    PAGE * f + 8 * i <= x < PAGE * f + 8 * i + 8
  }

  /** Byte x belongs to a frame handed out from lo up to hi, or to the bitmap byte of one. */
  ghost predicate Fresh(l: Layout, lo: nat, hi: nat, x: nat)
    requires Sound(l) && hi <= Total(l.regions)
  {
    exists j :: lo <= j < hi && (x / PAGE == PageFrame(l, j) || x == l.bitmap + j / 2)
  }

  /** Byte x belongs to one of the four entries that translate page v. */
  ghost predicate OnPath(tables: Tables, v: VPage, x: nat)
    requires Path(v) <= tables.Keys
  {
    SlotByte(tables[Pml4], v.i4, x) || SlotByte(tables[Pdpt(v.i4)], v.i3, x)
    || SlotByte(tables[Pd(v.i4, v.i3)], v.i2, x) || SlotByte(tables[TableOf(v)], v.i1, x)
  }

  lemma {:induction false} PutSlotByte(m: Memory, f: nat, i: nat, e: Entry, x: nat)
    requires f < FRAMES && i < 512 && x < PHYS_SIZE && !SlotByte(f, i, x)
    ensures PutSlot(m, f, i, e)[x] == m[x]
  {
    hide Encode, ToBytes;
  }

  lemma {:induction false} DescendFootprint(l: Layout, s: State, a: Space, n: Node, i: index9, x: nat)
    requires Models(l, s, a) && n in a.tables && !n.Pt? && x < PHYS_SIZE
    ensures Descend(l, s, a.tables[n], i).Done? ==>
      var s' := Descend(l, s, a.tables[n], i).value.0;
      s.index <= s'.index
      && (!Fresh(l, s.index, s'.index, x) && !SlotByte(a.tables[n], i, x) ==> s'.mem[x] == s.mem[x])
  {
    hide Total, PageFrame, Slot, PutSlot, Sound, Taken, InOrder, FrameAlloc, Owned, Tree, Trusted;
    TableFrames(l, s, a);
    IndexInRange(l, s);
    AllocInOrder(l, s.mem, s.index, true);
    var e := Slot(s.mem, a.tables[n], i);
    if !e.present && s.index < Total(l.regions) && !Fresh(l, s.index, s.index + 1, x) && !SlotByte(a.tables[n], i, x) {
      assert x / PAGE != PageFrame(l, s.index) && x != l.bitmap + s.index / 2;
      TakenFootprint(l, s.mem, s.index, true);
      var m1 := Taken(l, s.mem, s.index, true);
      var e' := Slot(m1, a.tables[n], i).(present := true, rw := true, ptr := PageFrame(l, s.index) % TWO_40);
      PutSlotByte(m1, a.tables[n], i, e', x);
    }
  }

  lemma {:induction false} FreshGrows(l: Layout, lo: nat, hi: nat, lo': nat, hi': nat, x: nat)
    requires Sound(l) && hi <= hi' <= Total(l.regions) && lo' <= lo
    ensures Fresh(l, lo, hi, x) ==> Fresh(l, lo', hi', x)
  {
    hide PageFrame, Total, Sound;
  }

  /** map_page writes only the four entries on the page's path, the frames it newly takes, and their bitmap bytes. */
  lemma {:induction false} MapPageFootprint(l: Layout, s: State, a: Space, op: Op, x: nat)
    requires Models(l, s, a) && op.Map? && OpCovered(l, a, op) && x < PHYS_SIZE
    ensures MapPage(l, s, a.tables[Pml4], op).Done? ==>
      Step(l, a, op).Done? && Path(PageOf(op.vaddr)) <= Step(l, a, op).value.tables.Keys
    ensures MapPage(l, s, a.tables[Pml4], op).Done? ==>
      var s' := MapPage(l, s, a.tables[Pml4], op).value;
      s'.mem[x] != s.mem[x] ==>
        Fresh(l, s.index, s'.index, x) || OnPath(Step(l, a, op).value.tables, PageOf(op.vaddr), x)
  {
    hide Total, Slot, PutSlot, Sound, InOrder, Ensure, Descend, PageOf, LeafOf, Models, PageFrame, SlotByte,
         OpCovered, Trusted, TableCovered;
    Unfold(l, s, a);
    LevelsCovered(l, a, op);
    MapPageSimulates(l, s, a, op);
    if MapPage(l, s, a.tables[Pml4], op).Done? {
      var v := PageOf(op.vaddr);
      DescendSimulates(l, s, a, Pml4, v.i4);
      DescendFootprint(l, s, a, Pml4, v.i4, x);
      var a3 := Ensure(l, a, Pdpt(v.i4)).value;
      var (s3, pdpt) := Descend(l, s, a.tables[Pml4], v.i4).value;
      DescendSimulates(l, s3, a3, Pdpt(v.i4), v.i3);
      DescendFootprint(l, s3, a3, Pdpt(v.i4), v.i3, x);
      var a2 := Ensure(l, a3, Pd(v.i4, v.i3)).value;
      var (s2, pd) := Descend(l, s3, pdpt, v.i3).value;
      DescendSimulates(l, s2, a2, Pd(v.i4, v.i3), v.i2);
      DescendFootprint(l, s2, a2, Pd(v.i4, v.i3), v.i2, x);
      var (s1, pt) := Descend(l, s2, pd, v.i2).value;
      if !SlotByte(pt, v.i1, x) {
        PutSlotByte(s1.mem, pt, v.i1, WithLeaf(Slot(s1.mem, pt, v.i1), LeafOf(op)), x);
      }
      FreshGrows(l, s.index, s3.index, s.index, s1.index, x);
      FreshGrows(l, s3.index, s2.index, s.index, s1.index, x);
      FreshGrows(l, s2.index, s1.index, s.index, s1.index, x);
    }
  }

  lemma {:induction false} TrustedDiffer(l: Layout, j: nat, k: nat)
    requires Sound(l) && Trusted(l, k + 1) && j < k < Total(l.regions)
    ensures PageFrame(l, j) != PageFrame(l, k)
  {
    hide OffsetsSmall, PageFrame, Total;
    FramesDiffer(l, k + 1, j, k);
  }

  /** So a frame that was handed out before and holds none of the page's four tables keeps every byte. */
  lemma {:induction false} OtherFramesUntouched(l: Layout, s: State, a: Space, op: Op, j: nat, x: nat)
    requires Models(l, s, a) && op.Map? && OpCovered(l, a, op) && x < PHYS_SIZE && s.index <= Total(l.regions)
    requires j < s.index && x / PAGE == PageFrame(l, j)
    ensures MapPage(l, s, a.tables[Pml4], op).Done? && Step(l, a, op).Done?
            && (forall n :: n in Path(PageOf(op.vaddr)) && n in Step(l, a, op).value.tables ==>
                  Step(l, a, op).value.tables[n] != PageFrame(l, j))
        ==> MapPage(l, s, a.tables[Pml4], op).value.mem[x] == s.mem[x]
  {
    hide Total, MapPage, Step, PageOf, PageFrame, Sound, HandedOut, Models, Trusted, OpCovered;
    Unfold(l, s, a);
    MapPageFootprint(l, s, a, op, x);
    MapPageSimulates(l, s, a, op);
    if MapPage(l, s, a.tables[Pml4], op).Done? {
      var s' := MapPage(l, s, a.tables[Pml4], op).value;
      Unfold(l, s', Step(l, a, op).value);
      forall k | s.index <= k < s'.index
        ensures x / PAGE != PageFrame(l, k) && x != l.bitmap + k / 2
      {
        TrustedBelow(l, s'.index, k + 1);
        TrustedDiffer(l, j, k);
        HandedOutBy(l, k, j);
        BitmapByteApart(l, k, PageFrame(l, j));
      }
    }
  }

  function WrittenBy(op: Op, f: nat, o: nat, b: bv8): bv8 {
    if op.Write? && op.frame == f && op.offset == o then op.value else b
  }

  /** What a run leaves in byte o of a client's frame f: the last write there, or b if there is none. */
  function LastWritten(ops: seq<Op>, f: nat, o: nat, b: bv8): bv8 {
    if ops == [] then b
    else LastWritten(ops[1..], f, o, WrittenBy(ops[0], f, o, b))
  }

  lemma {:induction false} ClientFrame(l: Layout, s: State, a: Space, f: nat) returns (j: nat)
    requires Models(l, s, a) && f in a.taken
    ensures s.index <= Total(l.regions) && j < s.index && PageFrame(l, j) == f && HandedOut(l, s.index, f)
    ensures forall n :: n in a.tables ==> a.tables[n] != f
  {
    hide Total, PageFrame, Tree, InOrder, Trusted, Sound;
    Unfold(l, s, a);
    j := HandedOutAt(l, s.index, f);
    forall n | n in a.tables
      ensures a.tables[n] != f
    {
      assert a.tables[n] == f ==> HoldsTable(a.tables, f);
    }
  }

  lemma {:induction false} ByteOfFrame(f: nat, o: nat)
    requires f < FRAMES && o < PAGE
    ensures PAGE * f + o < PHYS_SIZE && (PAGE * f + o) / PAGE == f
  {
  }

  lemma {:induction false} MapKeepsTaken(l: Layout, a: Space, op: Op)
    requires Sound(l) && a.index <= Total(l.regions) && Pml4 in a.tables && op.Map?
    ensures Step(l, a, op).Done? ==> Step(l, a, op).value.taken == a.taken
  {
    hide Total, Sound, MapTables, PageOf, Path;
    MapTablesCount(l, a, PageOf(op.vaddr));
  }

  lemma {:induction false} MapKeepsClient(l: Layout, s: State, a: Space, op: Op, f: nat, o: nat)
    requires Models(l, s, a) && OpCovered(l, a, op) && op.Map? && f in a.taken && f < FRAMES && o < PAGE
    ensures MapPage(l, s, a.tables[Pml4], op).Done? ==>
      MapPage(l, s, a.tables[Pml4], op).value.mem[PAGE * f + o] == s.mem[PAGE * f + o]
  {
    hide Total, MapPage, MapTables, PageOf, PageFrame, Sound, HandedOut, Models, Trusted, OpCovered, Path;
    Unfold(l, s, a);
    MapPageSimulates(l, s, a, op);
    if MapPage(l, s, a.tables[Pml4], op).Done? {
      var j := ClientFrame(l, s, a, f);
      MapKeepsTaken(l, a, op);
      var k := ClientFrame(l, MapPage(l, s, a.tables[Pml4], op).value, Step(l, a, op).value, f);
      ByteOfFrame(f, o);
      OtherFramesUntouched(l, s, a, op, j, PAGE * f + o);
    }
  }

  lemma {:induction false} DifferentBytes(f: nat, o: nat, f': nat, o': nat)
    requires o < PAGE && o' < PAGE
    ensures PAGE * f + o == PAGE * f' + o' <==> f == f' && o == o'
  {
  }

  /** One operation leaves a client's byte alone unless it writes it. */
  lemma {:induction false} PerformKeepsClient(l: Layout, s: State, a: Space, op: Op, f: nat, o: nat)
    requires Models(l, s, a) && OpCovered(l, a, op) && f in a.taken && f < FRAMES && o < PAGE
    ensures s.index <= Total(l.regions) && Pml4 in a.tables && a.tables[Pml4] < FRAMES
    ensures Perform(l, s, a.tables[Pml4], op).Done? && Step(l, a, op).Done? ==>
      && f in Step(l, a, op).value.taken
      && Perform(l, s, a.tables[Pml4], op).value.mem[PAGE * f + o] == WrittenBy(op, f, o, s.mem[PAGE * f + o])
  {
    hide Total, MapPage, MapTables, PageOf, PageFrame, Sound, HandedOut, Models, Trusted, OpCovered, FrameAlloc, Taken,
         InOrder;
    Unfold(l, s, a);
    ByteOfFrame(f, o);
    match op
    case Map(_, _, _, _, _, _) =>
      MapKeepsClient(l, s, a, op, f, o);
      MapKeepsTaken(l, a, op);
    case Take(zeroed) =>
      StateInOrder(l, s, a);
      AllocInOrder(l, s.mem, s.index, zeroed);
      if s.index < Total(l.regions) {
        TakeTrusted(l, a, op);
        var j := ClientFrame(l, s, a, f);
        TakenKeepsFrame(l, s.mem, s.index, zeroed, f);
      }
    case Write(frame, offset, _) =>
      DifferentBytes(frame, offset, f, o);
  }

  /** A client finds in its frame what it last wrote there: no map_page call and no other allocation of a run
      touches it. */
  lemma {:induction false} ClientsKeepTheirData(l: Layout, s: State, a: Space, ops: seq<Op>, f: nat, o: nat)
    requires Models(l, s, a) && Covered(l, a, ops) && Behaved(l, a, ops)
    requires f in a.taken && f < FRAMES && o < PAGE
    ensures PerformAll(l, s, a.tables[Pml4], ops).Done? ==>
      PerformAll(l, s, a.tables[Pml4], ops).value.mem[PAGE * f + o] == LastWritten(ops, f, o, s.mem[PAGE * f + o])
    decreases |ops|
  {
    hide Covered, OpCovered, Models, Perform, Step, Sound, Total, WrittenBy;
    Unfold(l, s, a);
    ByteOfFrame(f, o);
    if ops == [] {
    } else {
      assert [ops[0]] + ops[1..] == ops;
      CoveredStep(l, a, ops[0], ops[1..]);
      PerformSimulates(l, s, a, ops[0]);
      PerformKeepsClient(l, s, a, ops[0], f, o);
      if Step(l, a, ops[0]).Done? {
        ClientsKeepTheirData(l, Perform(l, s, a.tables[Pml4], ops[0]).value, Step(l, a, ops[0]).value, ops[1..], f, o);
      }
    }
  }
}
