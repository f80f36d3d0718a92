/** What the refinement gives: the effect of one map_page call, of repeating or reordering calls, and of whole
    runs in which map_page and other clients of the frame allocator take turns. */
module PagingTheorems {
  import opened MachineInts
  import opened PhysicalMemory
  import opened Entries
  import opened Regions
  import opened BootMap
  import opened FrameAllocation
  import opened PageTables
  import opened AbstractPaging
  import opened PagingOverMemory

  lemma {:induction false} StepPages(l: Layout, a: Space, op: Op)
    requires Sound(l) && op.Map? && Step(l, a, op).Done?
    ensures Step(l, a, op).value.pages == a.pages[PageOf(op.vaddr) := LeafOf(op)]
  {
    hide Total, PageFrame, Sound, PageOf, LeafOf;
  }

  /** map_page changes the translation of exactly one virtual page. That page then translates to paddr >> 12 with
      the requested bits; every other page, mapped or not, translates as before, however many tables were added. */
  lemma {:induction false} MapPageChangesOnePage(l: Layout, s: State, a: Space, op: Op)
    requires Models(l, s, a) && op.Map? && OpCovered(l, a, op)
    ensures var r := MapPage(l, s, a.tables[Pml4], op);
      r.Done? ==>
        && Walk(r.value.mem, a.tables[Pml4], PageOf(op.vaddr))
           == Mapped(op.paddr / PAGE % TWO_40, op.writable, false, op.noExecute, op.writeThrough)
        && forall v :: v != PageOf(op.vaddr) ==>
             Walk(r.value.mem, a.tables[Pml4], v) == Walk(s.mem, a.tables[Pml4], v)
  {
    hide OpCovered, Walk, MapPage, MapTables, Slot, PageOf, Sound, InOrder, HandedOut, Total;
    Unfold(l, s, a);
    MapPageSimulates(l, s, a, op);
    if MapPage(l, s, a.tables[Pml4], op).Done? {
      var s' := MapPage(l, s, a.tables[Pml4], op).value;
      var b := Step(l, a, op).value;
      StepPages(l, a, op);
      forall v
        ensures Walk(s'.mem, a.tables[Pml4], v)
             == if v == PageOf(op.vaddr)
                then Mapped(op.paddr / PAGE % TWO_40, op.writable, false, op.noExecute, op.writeThrough)
                else Walk(s.mem, a.tables[Pml4], v)
      {
        WalkIsLookup(s.mem, a.tables, a.pages, v);
        WalkIsLookup(s'.mem, b.tables, b.pages, v);
      }
    }
  }

  lemma {:induction false} StepPath(l: Layout, a: Space, op: Op)
    requires Sound(l) && a.index <= Total(l.regions) && Pml4 in a.tables && op.Map? && Step(l, a, op).Done?
    ensures Path(PageOf(op.vaddr)) <= Step(l, a, op).value.tables.Keys
  {
    hide Total, Sound, MapTables, PageOf, LeafOf, Path;
    MapTablesCount(l, a, PageOf(op.vaddr));
  }

  /** All four tables of page v exist. */
  predicate FramesOnPath(tables: Tables, v: VPage) {
    Path(v) <= tables.Keys && forall n :: n in Path(v) ==> tables[n] < FRAMES
  }

  /** The four words on the path of the page just mapped: three pointers with bits 0 and 1 set, and the leaf with
      each bit as asked. */
  lemma {:induction false} MapPageWords(l: Layout, s: State, a: Space, op: Op)
    requires Models(l, s, a) && op.Map? && OpCovered(l, a, op)
    ensures MapPage(l, s, a.tables[Pml4], op).Done? ==>
      Step(l, a, op).Done? && FramesOnPath(Step(l, a, op).value.tables, PageOf(op.vaddr))
    ensures MapPage(l, s, a.tables[Pml4], op).Done? ==>
      var v := PageOf(op.vaddr);
      var m, tables := MapPage(l, s, a.tables[Pml4], op).value.mem, Step(l, a, op).value.tables;
      && tables[Pml4] == a.tables[Pml4]
      && Load64(m, PAGE * tables[Pml4] + 8 * v.i4) == 3 + PAGE * tables[Pdpt(v.i4)]
      && Load64(m, PAGE * tables[Pdpt(v.i4)] + 8 * v.i3) == 3 + PAGE * tables[Pd(v.i4, v.i3)]
      && Load64(m, PAGE * tables[Pd(v.i4, v.i3)] + 8 * v.i2) == 3 + PAGE * tables[Pt(v.i4, v.i3, v.i2)]
      && Load64(m, PAGE * tables[Pt(v.i4, v.i3, v.i2)] + 8 * v.i1)
         == 1 + (if op.writable then 2 else 0) + (if op.supervisor then 4 else 0) + (if op.writeThrough then 8 else 0)
            + PAGE * (op.paddr / PAGE % TWO_40) + if op.noExecute then 0x8000_0000_0000_0000 else 0
  {
    hide OpCovered, MapPage, MapTables, Step, PageOf, Sound, InOrder, Owned, Total, Tree, Trusted, Load64;
    Unfold(l, s, a);
    MapPageSimulates(l, s, a, op);
    if MapPage(l, s, a.tables[Pml4], op).Done? {
      var v := PageOf(op.vaddr);
      var m, b := MapPage(l, s, a.tables[Pml4], op).value.mem, Step(l, a, op).value;
      StepPages(l, a, op);
      StepPath(l, a, op);
      TableFrames(l, MapPage(l, s, a.tables[Pml4], op).value, b);
      UpperWord(m, b.tables, b.pages, Pml4, v.i4);
      UpperWord(m, b.tables, b.pages, Pdpt(v.i4), v.i3);
      UpperWord(m, b.tables, b.pages, Pd(v.i4, v.i3), v.i2);
      LowestWord(m, b.tables, b.pages, TableOf(v), v.i1);
    }
  }

  /** All thirteen fields of the leaf after map_page: six are as asked; the others keep their values, or are zero
      on a page mapped for the first time. */
  lemma {:induction false} LeafFields(l: Layout, s: State, a: Space, op: Op)
    requires Models(l, s, a) && op.Map? && OpCovered(l, a, op)
    ensures MapPage(l, s, a.tables[Pml4], op).Done? ==>
      Step(l, a, op).Done? && FramesOnPath(Step(l, a, op).value.tables, PageOf(op.vaddr))
    ensures MapPage(l, s, a.tables[Pml4], op).Done? ==>
      var v := PageOf(op.vaddr);
      var tables := Step(l, a, op).value.tables;
      && (v in a.pages ==> TableOf(v) in a.tables && a.tables[TableOf(v)] == tables[TableOf(v)])
      && var e := Slot(MapPage(l, s, a.tables[Pml4], op).value.mem, tables[TableOf(v)], v.i1);
         var was := if v in a.pages then Slot(s.mem, tables[TableOf(v)], v.i1)
                    else Entry(false, false, false, false, false, false, false, false, false, 0, 0, 0, false);
         && e.present && e.rw == op.writable && e.us == op.supervisor && e.pwt == op.writeThrough
         && e.nx == op.noExecute && e.ptr == op.paddr / PAGE % TWO_40
         && e.pcd == was.pcd && e.accessed == was.accessed && e.bit6 == was.bit6 && e.bit7 == was.bit7
         && e.bit8 == was.bit8 && e.avail == was.avail && e.high == was.high
  {
    hide OpCovered, MapPage, MapTables, Step, PageOf, Sound, InOrder, Owned, Total, Trusted, Slot;
    Unfold(l, s, a);
    MapPageSimulates(l, s, a, op);
    if MapPage(l, s, a.tables[Pml4], op).Done? {
      var v := PageOf(op.vaddr);
      var s', b := MapPage(l, s, a.tables[Pml4], op).value, Step(l, a, op).value;
      StepPages(l, a, op);
      StepPath(l, a, op);
      TableFrames(l, s', b);
      assert Slot(s'.mem, b.tables[TableOf(v)], v.i1) == LowestEntry(b.pages, TableOf(v), v.i1);
      if v in a.pages {
        assert Slot(s.mem, a.tables[TableOf(v)], v.i1) == LowestEntry(a.pages, TableOf(v), v.i1);
      }
    }
  }

  /** The same on any memory at all, where the processor may have marked entries accessed or dirty: if the three
      upper entries are present, the leaf behind them gets the six fields asked for and keeps its other seven. */
  lemma {:induction false} LeafFieldsAnyMemory(l: Layout, s: State, root: nat, op: Op)
    requires Roomy(l) && s.index <= Total(l.regions) && root < FRAMES && op.Map?
    ensures var v := PageOf(op.vaddr);
      var e4 := Slot(s.mem, root, v.i4);
      var e3 := Slot(s.mem, TablePointer(e4) / PAGE, v.i3);
      var e2 := Slot(s.mem, TablePointer(e3) / PAGE, v.i2);
      var f := TablePointer(e2) / PAGE;
      e4.present && e3.present && e2.present ==>
        && MapPage(l, s, root, op).Done?
        && MapPage(l, s, root, op).value.index == s.index
        && var was, e := Slot(s.mem, f, v.i1), Slot(MapPage(l, s, root, op).value.mem, f, v.i1);
           && e.present && e.rw == op.writable && e.us == op.supervisor && e.pwt == op.writeThrough
           && e.nx == op.noExecute && e.ptr == op.paddr / PAGE % TWO_40
           && e.pcd == was.pcd && e.accessed == was.accessed && e.bit6 == was.bit6 && e.bit7 == was.bit7
           && e.bit8 == was.bit8 && e.avail == was.avail && e.high == was.high
  {
    hide Slot, PutSlot, PageOf, Sound, Total, TablePointer, FrameAlloc;
    var v := PageOf(op.vaddr);
    var e4 := Slot(s.mem, root, v.i4);
    var e3 := Slot(s.mem, TablePointer(e4) / PAGE, v.i3);
    var e2 := Slot(s.mem, TablePointer(e3) / PAGE, v.i2);
    var f := TablePointer(e2) / PAGE;
    SlotAfterPut(s.mem, f, v.i1, WithLeaf(Slot(s.mem, f, v.i1), LeafOf(op)), f, v.i1);
  }

  /** map_page halts if and only if the missing tables of its path outnumber the frames left. */
  lemma {:induction false} MapPageHalts(l: Layout, s: State, a: Space, op: Op)
    requires Models(l, s, a) && op.Map? && OpCovered(l, a, op)
    ensures MapPage(l, s, a.tables[Pml4], op).Done?
       <==> s.index + |Path(PageOf(op.vaddr)) - a.tables.Keys| <= Total(l.regions)
    ensures MapPage(l, s, a.tables[Pml4], op).Done? ==>
      MapPage(l, s, a.tables[Pml4], op).value.index == s.index + |Path(PageOf(op.vaddr)) - a.tables.Keys|
  {
    hide OpCovered, MapPage, MapTables, Slot, PageOf, Path, Sound, InOrder, HandedOut, Total, Tree;
    Unfold(l, s, a);
    MapPageSimulates(l, s, a, op);
    MapTablesCount(l, a, PageOf(op.vaddr));
  }

  /** On a page already mapped, map_page allocates nothing and rewrites the leaf entry only. */
  lemma {:induction false} RemapTouchesLeafOnly(l: Layout, s: State, a: Space, op: Op)
    requires Models(l, s, a) && op.Map? && PageOf(op.vaddr) in a.pages
    ensures var v := PageOf(op.vaddr);
      MapPage(l, s, a.tables[Pml4], op)
      == Done(State(PutSlot(s.mem, a.tables[TableOf(v)], v.i1, LeafEntry(LeafOf(op))), s.index))
  {
    hide Slot, PutSlot, PageOf, Sound, InOrder, HandedOut, Total, FrameAlloc;
    Unfold(l, s, a);
    var v := PageOf(op.vaddr);
    var n3, n2, n1 := Pdpt(v.i4), Pd(v.i4, v.i3), TableOf(v);
    assert Parent(n1) == n2 && Parent(n2) == n3;
    assert Slot(s.mem, a.tables[Pml4], v.i4) == UpperEntry(a.tables, Pml4, v.i4);
    assert Slot(s.mem, a.tables[n3], v.i3) == UpperEntry(a.tables, n3, v.i3);
    assert Slot(s.mem, a.tables[n2], v.i2) == UpperEntry(a.tables, n2, v.i2);
    assert Slot(s.mem, a.tables[n1], v.i1) == LowestEntry(a.pages, n1, v.i1);
    PointerOf(a.tables[n3]);
    PointerOf(a.tables[n2]);
    PointerOf(a.tables[n1]);
  }

  /** Repeating a call with the same arguments leaves memory and allocator exactly as they are. */
  lemma {:induction false} RepeatIsIdentity(l: Layout, s: State, a: Space, op: Op)
    requires Models(l, s, a) && op.Map? && OpCovered(l, a, op)
    ensures MapPage(l, s, a.tables[Pml4], op).Done? ==>
      var s' := MapPage(l, s, a.tables[Pml4], op).value;
      MapPage(l, s', a.tables[Pml4], op) == Done(s')
  {
    hide OpCovered, Slot, PutSlot, PageOf, Sound, InOrder, HandedOut, Total, MapTables, MapPage, LeafOf;
    Unfold(l, s, a);
    MapPageSimulates(l, s, a, op);
    if MapPage(l, s, a.tables[Pml4], op).Done? {
      StepPages(l, a, op);
      var s' := MapPage(l, s, a.tables[Pml4], op).value;
      var b := Step(l, a, op).value;
      var v := PageOf(op.vaddr);
      RemapTouchesLeafOnly(l, s', b, op);
      TableFrames(l, s', b);
      assert Slot(s'.mem, b.tables[TableOf(v)], v.i1) == LowestEntry(b.pages, TableOf(v), v.i1);
      PutCurrent(s'.mem, b.tables[TableOf(v)], v.i1);
    }
  }

  /** One operation on memory. */
  function Perform(l: Layout, s: State, root: nat, op: Op): (r: Outcome<State>)
    requires Roomy(l) && s.index <= Total(l.regions) && root < FRAMES
    ensures r.Done? ==> r.value.index <= Total(l.regions)
  {
    match op
    case Map(_, _, _, _, _, _) => MapPage(l, s, root, op)
    case Write(_, _, _) => Done(State(Written(s.mem, op), s.index))
    case Take(zeroed) =>
      PagingOverMemory.InBounds(l, s.mem, s.index, zeroed);
      match FrameAlloc(l, s.mem, s.index, zeroed)
      case Halt(site) => Halt(site)
      case Done(a) => Done(State(a.mem, a.index))
  }

  function PerformAll(l: Layout, s: State, root: nat, ops: seq<Op>): (r: Outcome<State>)
    requires Roomy(l) && s.index <= Total(l.regions) && root < FRAMES
    ensures r.Done? ==> r.value.index <= Total(l.regions)
    decreases |ops|
  {
    if ops == [] then Done(s)
    else match Perform(l, s, root, ops[0])
      case Halt(site) => Halt(site)
      case Done(s') => PerformAll(l, s', root, ops[1..])
  }

  lemma {:induction false} StateInOrder(l: Layout, s: State, a: Space)
    requires Models(l, s, a)
    ensures InOrder(l, s.mem, s.index)
  {
  }

  lemma {:induction false} TakeTrusted(l: Layout, a: Space, op: Op)
    requires Sound(l) && op.Take? && OpCovered(l, a, op)
    ensures Trusted(l, a.index + 1)
  {
    hide Trusted;
  }

  lemma {:induction false} PerformSimulates(l: Layout, s: State, a: Space, op: Op)
    requires Models(l, s, a) && OpCovered(l, a, op) && (op.Write? ==> op.frame in a.taken)
    ensures Step(l, a, op).Halt? <==> Perform(l, s, a.tables[Pml4], op).Halt?
    ensures Step(l, a, op).Done? ==>
      && Models(l, Perform(l, s, a.tables[Pml4], op).value, Step(l, a, op).value)
      && Step(l, a, op).value.tables[Pml4] == a.tables[Pml4]
  {
    hide OpCovered, Slot, Sound, InOrder, Owned, Total, MapTables, MapPage, LeafOf, Tree, Taken, FrameAlloc, PageOf,
         Trusted, PageFrame, Written, Models;
    Unfold(l, s, a);
    match op
    case Map(_, _, _, _, _, _) =>
      MapPageSimulates(l, s, a, op);
    case Take(zeroed) =>
      StateInOrder(l, s, a);
      AllocInOrder(l, s.mem, s.index, zeroed);
      if s.index < Total(l.regions) {
        TakeTrusted(l, a, op);
        TakeSimulates(l, s, a, zeroed);
      }
    case Write(_, _, _) =>
      WriteSimulates(l, s, a, op);
  }

  /** Every run keeps the refinement: allocator invariant, tree shape and finite map hold together after any
      interleaving of map_page with allocations by other clients and what those write into their frames. */
  lemma {:induction false} RunSimulates(l: Layout, s: State, a: Space, ops: seq<Op>)
    requires Models(l, s, a) && Covered(l, a, ops) && Behaved(l, a, ops)
    ensures Run(l, a, ops).Halt? <==> PerformAll(l, s, a.tables[Pml4], ops).Halt?
    ensures Run(l, a, ops).Done? ==>
      && Models(l, PerformAll(l, s, a.tables[Pml4], ops).value, Run(l, a, ops).value)
      && Run(l, a, ops).value.tables[Pml4] == a.tables[Pml4]
    decreases |ops|
  {
    hide Covered, OpCovered, Models, Perform, Step, Sound, Total;
    Unfold(l, s, a);
    if ops == [] {
    } else {
      assert [ops[0]] + ops[1..] == ops;
      CoveredStep(l, a, ops[0], ops[1..]);
      PerformSimulates(l, s, a, ops[0]);
      if Step(l, a, ops[0]).Done? {
        var s' := Perform(l, s, a.tables[Pml4], ops[0]).value;
        var b := Step(l, a, ops[0]).value;
        Unfold(l, s', b);
        RunSimulates(l, s', b, ops[1..]);
      }
    }
  }

  /** Request k is the last in ops for page v. */
  ghost predicate LastRequest(ops: seq<Op>, v: VPage, k: int) {
    && 0 <= k < |ops| && ops[k].Map? && PageOf(ops[k].vaddr) == v
    && forall j :: k < j < |ops| && ops[j].Map? ==> PageOf(ops[j].vaddr) != v
  }

  lemma {:induction false} UpdatedElsewhere(pages: Pages, ops: seq<Op>, v: VPage)
    requires v !in PagesOf(ops)
    ensures v in Updated(pages, ops) <==> v in pages
    ensures v in pages ==> Updated(pages, ops)[v] == pages[v]
    decreases |ops|
  {
    hide PageOf, LeafOf;
    if ops == [] {
    } else {
      UpdatedElsewhere(if ops[0].Map? then pages[PageOf(ops[0].vaddr) := LeafOf(ops[0])] else pages, ops[1..], v);
    }
  }

  lemma {:induction false} NotRequested(ops: seq<Op>, v: VPage)
    requires forall j :: 0 <= j < |ops| && ops[j].Map? ==> PageOf(ops[j].vaddr) != v
    ensures v !in PagesOf(ops)
  {
    hide PageOf;
    if ops == [] {
    } else {
      NotRequested(ops[1..], v);
    }
  }

  lemma {:induction false} UpdatedLast(pages: Pages, ops: seq<Op>, v: VPage, k: int)
    requires LastRequest(ops, v, k)
    ensures v in Updated(pages, ops) && Updated(pages, ops)[v] == LeafOf(ops[k])
    decreases |ops|
  {
    hide PageOf, LeafOf;
    var next := if ops[0].Map? then pages[PageOf(ops[0].vaddr) := LeafOf(ops[0])] else pages;
    if k == 0 {
      NotRequested(ops[1..], v);
      UpdatedElsewhere(next, ops[1..], v);
    } else {
      assert LastRequest(ops[1..], v, k - 1) by {
        assert ops[1..][k - 1] == ops[k];
        forall j | k - 1 < j < |ops[1..]| && ops[1..][j].Map?
          ensures PageOf(ops[1..][j].vaddr) != v
        {
          assert ops[1..][j] == ops[j + 1];
        }
      }
      UpdatedLast(next, ops[1..], v, k - 1);
    }
  }

  /** After any run the walk of any page gives what the latest request for it asked: its frame, writable and
      no-execute exactly as asked, never user-accessible; a page no request named translates as before. */
  lemma {:induction false} RunTranslation(l: Layout, s: State, a: Space, ops: seq<Op>, v: VPage)
    requires Models(l, s, a) && Covered(l, a, ops) && Behaved(l, a, ops)
    ensures PerformAll(l, s, a.tables[Pml4], ops).Done? ==>
      var m := PerformAll(l, s, a.tables[Pml4], ops).value.mem;
      && (forall k :: LastRequest(ops, v, k) ==>
            Walk(m, a.tables[Pml4], v) == Mapped(ops[k].paddr / PAGE % TWO_40, ops[k].writable, false,
                                                 ops[k].noExecute, ops[k].writeThrough))
      && (v !in PagesOf(ops) ==> Walk(m, a.tables[Pml4], v) == Walk(s.mem, a.tables[Pml4], v))
  {
    hide Covered, Behaved, Trusted, Owned, Walk, Run, PerformAll, Sound, Total, InOrder, HandedOut, PageOf, PagesOf,
         NodesOf, Updated, TakesOf, Tree;
    Unfold(l, s, a);
    RunSimulates(l, s, a, ops);
    RunCount(l, a, ops);
    if PerformAll(l, s, a.tables[Pml4], ops).Done? {
      var s' := PerformAll(l, s, a.tables[Pml4], ops).value;
      var b := Run(l, a, ops).value;
      WalkIsLookup(s.mem, a.tables, a.pages, v);
      WalkIsLookup(s'.mem, b.tables, b.pages, v);
      forall k | LastRequest(ops, v, k)
        ensures v in b.pages && b.pages[v] == LeafOf(ops[k])
      {
        UpdatedLast(a.pages, ops, v, k);
      }
      if v !in PagesOf(ops) {
        UpdatedElsewhere(a.pages, ops, v);
      }
    }
  }

  lemma {:induction false} SameWalks(l: Layout, s: State, a: Space, s': State, b: Space)
    requires Models(l, s, a) && Models(l, s', b) && a.pages == b.pages
    ensures forall v :: Walk(s.mem, a.tables[Pml4], v) == Walk(s'.mem, b.tables[Pml4], v)
  {
    hide Trusted, Owned, Walk, Sound, Total, InOrder, Tree;
    Unfold(l, s, a);
    Unfold(l, s', b);
    forall v
      ensures Walk(s.mem, a.tables[Pml4], v) == Walk(s'.mem, b.tables[Pml4], v)
    {
      WalkIsLookup(s.mem, a.tables, a.pages, v);
      WalkIsLookup(s'.mem, b.tables, b.pages, v);
    }
  }

  lemma {:induction false} LastIsMap(ops: seq<Op>, v: VPage, k: int)
    requires LastRequest(ops, v, k)
    ensures 0 <= k < |ops| && ops[k].Map?
  {
  }

  lemma {:induction false} Requested(ops: seq<Op>, k: nat)
    requires k < |ops| && ops[k].Map?
    ensures PageOf(ops[k].vaddr) in PagesOf(ops)
  {
    hide PageOf;
    if k == 0 {
    } else {
      Requested(ops[1..], k - 1);
    }
  }

  lemma {:induction false} RequestedLast(ops: seq<Op>, v: VPage) returns (k: int)
    requires v in PagesOf(ops)
    ensures LastRequest(ops, v, k)
  {
    hide PageOf;
    if v in PagesOf(ops[1..]) {
      k := RequestedLast(ops[1..], v);
      assert ops[1..][k] == ops[k + 1];
      k := k + 1;
      forall j | k < j < |ops| && ops[j].Map?
        ensures PageOf(ops[j].vaddr) != v
      {
        assert ops[j] == ops[1..][j - 1];
      }
    } else {
      k := 0;
      forall j | 0 < j < |ops| && ops[j].Map?
        ensures PageOf(ops[j].vaddr) != v
      {
        assert ops[j] == ops[1..][j - 1];
        Requested(ops[1..], j - 1);
      }
    }
  }

  lemma {:induction false} SameUpdates(pages: Pages, xs: seq<Op>, ys: seq<Op>)
    requires PagesOf(xs) == PagesOf(ys)
    requires forall v, i, j :: LastRequest(xs, v, i) && LastRequest(ys, v, j) ==> LeafOf(xs[i]) == LeafOf(ys[j])
    ensures Updated(pages, xs) == Updated(pages, ys)
  {
    hide PageOf, LeafOf, PagesOf, Updated, LastRequest;
    forall v
      ensures v in Updated(pages, xs) <==> v in Updated(pages, ys)
      ensures v in Updated(pages, xs) ==> Updated(pages, xs)[v] == Updated(pages, ys)[v]
    {
      if v in PagesOf(xs) {
        var i := RequestedLast(xs, v);
        var j := RequestedLast(ys, v);
        UpdatedLast(pages, xs, v, i);
        UpdatedLast(pages, ys, v, j);
        LastIsMap(xs, v, i);
        LastIsMap(ys, v, j);
      } else {
        UpdatedElsewhere(pages, xs, v);
        UpdatedElsewhere(pages, ys, v);
      }
    }
  }

  /** Two runs that take the same number of frames, name the same pages and agree on the last request for each
      succeed or halt alike, consume the same frames and give the same translation of every page, in whatever order
      and however often they ask, although the tables may end up in different frames. */
  lemma {:induction false} OrderDoesNotMatter(l: Layout, s: State, a: Space, xs: seq<Op>, ys: seq<Op>)
    requires Models(l, s, a) && Covered(l, a, xs) && Behaved(l, a, xs) && Behaved(l, a, ys)
    requires PagesOf(xs) == PagesOf(ys) && TakesOf(xs) == TakesOf(ys)
    requires forall v, i, j :: LastRequest(xs, v, i) && LastRequest(ys, v, j) ==> LeafOf(xs[i]) == LeafOf(ys[j])
    ensures var root := a.tables[Pml4];
      var x, y := PerformAll(l, s, root, xs), PerformAll(l, s, root, ys);
      && (x.Done? <==> y.Done?)
      && (x.Done? ==> x.value.index == y.value.index)
      && (x.Done? ==> forall v :: Walk(x.value.mem, root, v) == Walk(y.value.mem, root, v))
  {
    hide Trusted, Behaved, Owned, Walk, Run, PerformAll, Sound, Total, InOrder, PageOf, LeafOf, NodesOf, Tree, PagesOf,
         TakesOf, Updated, LastRequest;
    Unfold(l, s, a);
    RunSimulates(l, s, a, xs);
    RunSimulates(l, s, a, ys);
    RunCount(l, a, xs);
    RunCount(l, a, ys);
    SameUpdates(a.pages, xs, ys);
    if Run(l, a, xs).Done? {
      SameWalks(l, PerformAll(l, s, a.tables[Pml4], xs).value, Run(l, a, xs).value,
                PerformAll(l, s, a.tables[Pml4], ys).value, Run(l, a, ys).value);
    }
  }

  function LastIndex(n: Node): index9
    requires n != Pml4
  {
    match n
    case Pdpt(i) => i
    case Pd(_, i) => i
    case Pt(_, _, i) => i
  }

  /** Following the pointers in memory from the root to a table. */
  function TableAt(m: Memory, root: nat, n: Node): Option<nat>
    requires root < FRAMES
    decreases match n case Pml4 => 0 case Pdpt(_) => 1 case Pd(_, _) => 2 case Pt(_, _, _) => 3
  {
    if n == Pml4 then Some(root)
    else
      match TableAt(m, root, Parent(n))
      case None => None
      case Some(f) =>
        if f < FRAMES && Slot(m, f, LastIndex(n)).present then Some(TablePointer(Slot(m, f, LastIndex(n))) / PAGE)
        else None
  }

  /** Some chain of pointers from the root ends at the table in frame f. */
  ghost predicate Reachable(m: Memory, root: nat, f: nat)
    requires root < FRAMES
  {
    exists n :: TableAt(m, root, n) == Some(f)
  }

  /** The tables the model names are exactly those reachable in memory from the PML4, each in its own frame. */
  lemma {:induction false} ReachableTables(m: Memory, tables: Tables, pages: Pages, n: Node)
    requires Tree(m, tables, pages)
    ensures TableAt(m, tables[Pml4], n) == if n in tables then Some(tables[n]) else None
    decreases match n case Pml4 => 0 case Pdpt(_) => 1 case Pd(_, _) => 2 case Pt(_, _, _) => 3
  {
    hide Slot;
    if n == Pml4 {
    } else {
      var p := Parent(n);
      ReachableTables(m, tables, pages, p);
      if p in tables {
        assert Child(p, LastIndex(n)) == n;
        assert Slot(m, tables[p], LastIndex(n)) == UpperEntry(tables, p, LastIndex(n));
        if n in tables {
          PointerOf(tables[n]);
        }
      }
    }
  }

  /** Every frame handed out holds a table. */
  ghost predicate NoLeak(l: Layout, a: Space)
    requires Sound(l) && a.index <= Total(l.regions)
  {
    forall j :: 0 <= j < a.index ==> HoldsTable(a.tables, PageFrame(l, j))
  }

  lemma {:induction false} EnsureNoLeak(l: Layout, a: Space, n: Node)
    requires Sound(l) && a.index <= Total(l.regions) && NoLeak(l, a) && Ensure(l, a, n).Done?
    ensures Ensure(l, a, n).value.index <= Total(l.regions) && NoLeak(l, Ensure(l, a, n).value)
  {
    hide PageFrame, Sound, Total;
    var b := Ensure(l, a, n).value;
    forall j | 0 <= j < b.index
      ensures HoldsTable(b.tables, PageFrame(l, j))
    {
      if j < a.index {
        assert HoldsTable(a.tables, PageFrame(l, j));
        var k :| k in a.tables && a.tables[k] == PageFrame(l, j);
        assert k in b.tables && (k != n || n in a.tables);
      } else {
        assert n in b.tables && b.tables[n] == PageFrame(l, j);
      }
    }
  }

  lemma {:induction false} PagesDoNotMatter(l: Layout, a: Space, b: Space)
    requires Sound(l) && a.index <= Total(l.regions) && NoLeak(l, a)
    requires b.tables == a.tables && b.index == a.index
    ensures NoLeak(l, b)
  {
  }

  /** While map_page is the allocator's only client, the frames handed out are exactly the tables. */
  lemma {:induction false} OnlyClientNoLeak(l: Layout, a: Space, ops: seq<Op>)
    requires Sound(l) && a.index <= Total(l.regions) && NoLeak(l, a)
    requires forall k :: 0 <= k < |ops| ==> ops[k].Map?
    requires Run(l, a, ops).Done?
    ensures Run(l, a, ops).value.index <= Total(l.regions) && NoLeak(l, Run(l, a, ops).value)
    decreases |ops|
  {
    hide Sound, Total, Ensure, PageOf, LeafOf;
    if ops == [] {
    } else {
      assert ops[0].Map? && Step(l, a, ops[0]).Done?;
      var v := PageOf(ops[0].vaddr);
      var a3 := Ensure(l, a, Pdpt(v.i4));
      EnsureNoLeak(l, a, Pdpt(v.i4));
      var a2 := Ensure(l, a3.value, Pd(v.i4, v.i3));
      EnsureNoLeak(l, a3.value, Pd(v.i4, v.i3));
      EnsureNoLeak(l, a2.value, TableOf(v));
      PagesDoNotMatter(l, Ensure(l, a2.value, TableOf(v)).value, Step(l, a, ops[0]).value);
      OnlyClientNoLeak(l, Step(l, a, ops[0]).value, ops[1..]);
    }
  }

  /** The address space right after initialize_paging's own frame_alloc(true). */
  lemma {:induction false} FreshSpace(l: Layout, s: State)
    requires Roomy(l) && InOrder(l, s.mem, s.index) && s.index < Total(l.regions) && Trusted(l, s.index + 1)
    ensures var f := PageFrame(l, s.index);
      Models(l, State(Taken(l, s.mem, s.index, true), s.index + 1), Space(map[Pml4 := f], map[], s.index + 1, {}))
  {
    hide Slot, PageFrame, Taken, Total, OffsetsSmall;
    AllocInOrder(l, s.mem, s.index, true);
    ZeroedFrameIsEmpty(l, s.mem, s.index);
    EmptyTree(Taken(l, s.mem, s.index, true), PageFrame(l, s.index));
    NewestHandedOut(l, s.index);
  }

  lemma {:induction false} OnlyMaps(l: Layout, a: Space, ops: seq<Op>)
    requires Sound(l) && forall k :: 0 <= k < |ops| ==> ops[k].Map?
    ensures Behaved(l, a, ops) && TakesOf(ops) == 0
    decreases |ops|
  {
    hide Step, Sound;
    if ops == [] {
    } else {
      assert ops[0].Map?;
      OnlyMaps(l, a, ops[1..]);
      if Step(l, a, ops[0]).Done? {
        OnlyMaps(l, Step(l, a, ops[0]).value, ops[1..]);
      }
    }
  }

  lemma {:induction false} RootIncluded(K: set<VPage>, keys: set<Node>)
    requires keys == {Pml4}
    ensures |NodesOf(K) - keys| == |NodesOf(K)| - 1
  {
    hide Pdpts, Pds, Pts;
    assert Pml4 in NodesOf(K);
    assert NodesOf(K) == {Pml4} + (NodesOf(K) - keys);
  }

  /** From a zeroed PML4 a sequence of map_page calls is covered if its tables are. */
  lemma {:induction false} CoveredFromFresh(l: Layout, f: nat, index: nat, ops: seq<Op>)
    requires Sound(l) && (forall k :: 0 <= k < |ops| ==> ops[k].Map?)
    requires Trusted(l, index + |NodesOf(PagesOf(ops))|)
    ensures var a := Space(map[Pml4 := f], map[], index + 1, {});
      && index + 1 + Need(a, ops) == index + |NodesOf(PagesOf(ops))|
      && Covered(l, a, ops) && Behaved(l, a, ops) && Trusted(l, index + 1)
  {
    hide Trusted, NodesOf, PagesOf, TakesOf, Behaved, Sound;
    var a := Space(map[Pml4 := f], map[], index + 1, {});
    OnlyMaps(l, a, ops);
    assert a.tables.Keys == {Pml4};
    RootIncluded(PagesOf(ops), a.tables.Keys);
    TrustedBelow(l, index + |NodesOf(PagesOf(ops))|, index + 1);
  }

  lemma {:induction false} NodesConsumed(l: Layout, s: State, ops: seq<Op>)
    requires Roomy(l) && InOrder(l, s.mem, 0) && s.index == 0 && 0 < Total(l.regions)
    requires (forall k :: 0 <= k < |ops| ==> ops[k].Map?) && Trusted(l, |NodesOf(PagesOf(ops))|)
    ensures var r := PerformAll(l, State(Taken(l, s.mem, 0, true), 1), PageFrame(l, 0), ops);
      && (r.Done? <==> |NodesOf(PagesOf(ops))| <= Total(l.regions))
      && (r.Done? ==> r.value.index == |NodesOf(PagesOf(ops))|)
  {
    hide Sound, InOrder, Total, PageFrame, Taken, NodesOf, PagesOf, Run, PerformAll, Tree, Owned, Updated, Trusted,
         Covered, Behaved, TakesOf, Models, Need;
    var s1 := State(Taken(l, s.mem, 0, true), 1);
    var a1 := Space(map[Pml4 := PageFrame(l, 0)], map[], 1, {});
    CoveredFromFresh(l, PageFrame(l, 0), 0, ops);
    FreshSpace(l, s);
    RunSimulates(l, s1, a1, ops);
    RunTakesNeed(l, a1, ops);
    if Run(l, a1, ops).Done? {
      Unfold(l, PerformAll(l, s1, PageFrame(l, 0), ops).value, Run(l, a1, ops).value);
    }
  }

  /** From a zeroed PML4 in the first frame, any sequence of map_page calls consumes, the PML4 included, one frame
      plus one per distinct PML4 index, (PML4, PDPT) pair and (PML4, PDPT, PD) triple among the pages mapped. */
  lemma {:induction false} FramesConsumed(l: Layout, s: State, ops: seq<Op>)
    requires Roomy(l) && InOrder(l, s.mem, 0) && s.index == 0 && 0 < Total(l.regions)
    requires (forall k :: 0 <= k < |ops| ==> ops[k].Map?) && Trusted(l, |NodesOf(PagesOf(ops))|)
    ensures var r := PerformAll(l, State(Taken(l, s.mem, 0, true), 1), PageFrame(l, 0), ops);
      var K := PagesOf(ops);
      var need := 1 + |set v | v in K :: v.i4| + |set v | v in K :: (v.i4, v.i3)|
                    + |set v | v in K :: (v.i4, v.i3, v.i2)|;
      && (r.Done? <==> need <= Total(l.regions))
      && (r.Done? ==> r.value.index == need)
  {
    hide Sound, InOrder, Total, PageFrame, Taken, NodesOf, PagesOf, PerformAll, Trusted;
    NodesConsumed(l, s, ops);
    TableCount(PagesOf(ops));
  }

  lemma {:induction false} NoLeakReachable(l: Layout, s: State, a: Space)
    requires Models(l, s, a) && a.index <= Total(l.regions) && NoLeak(l, a)
    ensures forall f: nat :: Reachable(s.mem, a.tables[Pml4], f) <==> HandedOut(l, s.index, f)
  {
    hide Sound, InOrder, Total, PageFrame, TableAt;
    forall f: nat | HandedOut(l, s.index, f)
      ensures Reachable(s.mem, a.tables[Pml4], f)
    {
      var j := HandedOutAt(l, s.index, f);
      assert HoldsTable(a.tables, PageFrame(l, j));
      var n :| n in a.tables && a.tables[n] == f;
      ReachableTables(s.mem, a.tables, a.pages, n);
      assert TableAt(s.mem, a.tables[Pml4], n) == Some(f);
    }
    forall f: nat | Reachable(s.mem, a.tables[Pml4], f)
      ensures HandedOut(l, s.index, f)
    {
      var n :| TableAt(s.mem, a.tables[Pml4], n) == Some(f);
      ReachableTables(s.mem, a.tables, a.pages, n);
    }
  }

  lemma {:induction false} FreshNoLeak(l: Layout)
    requires Sound(l) && 0 < Total(l.regions)
    ensures NoLeak(l, Space(map[Pml4 := PageFrame(l, 0)], map[], 1, {}))
  {
    hide Sound, Total, PageFrame;
    var tables: Tables := map[Pml4 := PageFrame(l, 0)];
    assert HoldsTable(tables, PageFrame(l, 0)) by {
      assert Pml4 in tables && tables[Pml4] == PageFrame(l, 0);
    }
  }

  /** And the frames consumed are exactly the tables: each one is reached from the PML4 by following pointers. */
  lemma {:induction false} FramesAreTables(l: Layout, s: State, ops: seq<Op>)
    requires Roomy(l) && InOrder(l, s.mem, 0) && s.index == 0 && 0 < Total(l.regions)
    requires (forall k :: 0 <= k < |ops| ==> ops[k].Map?) && Trusted(l, |NodesOf(PagesOf(ops))|)
    ensures var r := PerformAll(l, State(Taken(l, s.mem, 0, true), 1), PageFrame(l, 0), ops);
      r.Done? ==> forall f: nat :: Reachable(r.value.mem, PageFrame(l, 0), f) <==> HandedOut(l, r.value.index, f)
  {
    hide Sound, InOrder, Total, PageFrame, Taken, NodesOf, PagesOf, Run, PerformAll, Models, HandedOut, NoLeak,
         Reachable, Trusted, Covered, Behaved, TakesOf;
    var s1 := State(Taken(l, s.mem, 0, true), 1);
    var a1 := Space(map[Pml4 := PageFrame(l, 0)], map[], 1, {});
    CoveredFromFresh(l, PageFrame(l, 0), 0, ops);
    FreshSpace(l, s);
    RunSimulates(l, s1, a1, ops);
    if Run(l, a1, ops).Done? {
      var s' := PerformAll(l, s1, PageFrame(l, 0), ops).value;
      FreshNoLeak(l);
      OnlyClientNoLeak(l, a1, ops);
      NoLeakReachable(l, s', Run(l, a1, ops).value);
    }
  }
}
