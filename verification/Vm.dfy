/** Virtual memory set-up of vm.c: map_page edits tables in place through the direct map, and initialize_paging
    calls it for the PML4, the stack, the framebuffers and the kernel image. */
module Vm {
  import opened MachineInts
  import opened PhysicalMemory
  import opened Entries
  import opened Regions
  import opened BootMap
  import FrameAllocation
  import opened Pmem
  import opened PageTables
  import opened AbstractPaging
  import PagingOverMemory
  import opened PagingTheorems
  import opened InitialMappings

  /** A run that carries on from the outcome of an earlier one. */
  ghost function Then(l: Layout, run: Outcome<Space>, ops: seq<Op>): Outcome<Space>
    requires Sound(l)
  {
    match run
    case Halt(site) => Halt(site)
    case Done(b) => Run(l, b, ops)
  }

  /** A covered run, done in two parts. */
  lemma {:induction false} RunSplit(l: Layout, s: PagingOverMemory.State, a: Space, xs: seq<Op>, ys: seq<Op>)
    requires PagingOverMemory.Models(l, s, a) && Covered(l, a, xs + ys)
    ensures Run(l, a, xs + ys) == Then(l, Run(l, a, xs), ys)
    ensures Covered(l, a, xs)
    ensures Run(l, a, xs).Done? ==> Covered(l, Run(l, a, xs).value, ys)
  {
    hide Sound, Step, Run, Covered, PagingOverMemory.Models, Total;
    PagingOverMemory.Unfold(l, s, a);
    CoveredConcat(l, a, xs, ys);
    RunConcat(l, a, xs, ys);
  }

  /** The covered run of initialize_paging, done group by group. */
  lemma {:induction false} InGroups(l: Layout, s: PagingOverMemory.State, a: Space, first: Op, stack: seq<Op>,
                                    buffers: seq<Op>, kernel: seq<Op>)
    requires PagingOverMemory.Models(l, s, a) && Covered(l, a, [first] + stack + buffers + kernel)
    ensures var r0 := Step(l, a, first);
      var r1 := Then(l, r0, stack);
      var r2 := Then(l, r1, buffers);
      && Run(l, a, [first] + stack + buffers + kernel) == Then(l, r2, kernel)
      && OpCovered(l, a, first)
      && (r0.Done? ==> Covered(l, r0.value, stack))
      && (r1.Done? ==> Covered(l, r1.value, buffers))
      && (r2.Done? ==> Covered(l, r2.value, kernel))
  {
    hide Sound, Step, Run, FrameAllocation.Trusted, Need, OpNeed, PagingOverMemory.Models, Total;
    PagingOverMemory.Unfold(l, s, a);
    OneNeed(a, first);
    RunSplit(l, s, a, [first] + stack + buffers, kernel);
    RunSplit(l, s, a, [first] + stack, buffers);
    RunSplit(l, s, a, [first], stack);
    RunOne(l, a, first);
  }

  /** The first frame is trusted, and all requests of initialize_paging are covered after it. */
  lemma {:induction false} FirstFrame(l: Layout, hhdm: nat, index: nat, es: seq<MemmapEntry>, physicalBase: nat,
                                      kernelEnd: nat, rsp: nat)
    requires Sound(l) && index < Total(l.regions) ==>
      FrameAllocation.Trusted(l, index + InitialDemand(l, hhdm, index, es, physicalBase, kernelEnd, rsp))
    ensures Sound(l) && index < Total(l.regions) ==>
      var f := FrameAllocation.PageFrame(l, index);
      && FrameAllocation.Trusted(l, index + 1)
      && Covered(l, Space(map[Pml4 := f], map[], index + 1, {}),
                 InitOps(hhdm, PAGE * f, rsp, es, physicalBase, kernelEnd))
  {
    hide Sound, Total, FrameAllocation.PageFrame, FrameAllocation.Trusted, NodesOf, PagesOf, InitOps, Covered,
         Behaved;
    if Sound(l) && index < Total(l.regions) {
      var f := FrameAllocation.PageFrame(l, index);
      AllRequestsAreMaps(hhdm, PAGE * f, rsp, es, physicalBase, kernelEnd);
      CoveredFromFresh(l, f, index, InitOps(hhdm, PAGE * f, rsp, es, physicalBase, kernelEnd));
    }
  }

  /** Changing a field of an entry last stored as d is storing the changed d in the first place. */
  lemma {:induction false} FieldsCombine(m: Memory, f: nat, i: index9, d: Entry, change: Entry -> Entry)
    requires f < FRAMES
    ensures var m' := PutSlot(m, f, i, d);
      PutSlot(m', f, i, change(Slot(m', f, i))) == PutSlot(m, f, i, change(d))
  {
    hide Slot, PutSlot;
    SlotAfterPut(m, f, i, d, f, i);
    PutTwice(m, f, i, d, change(d));
  }

  lemma {:induction false} RunFromStart(l: Layout, a: Space, ops: seq<Op>)
    requires Sound(l)
    ensures Run(l, a, ops) == Run(l, a, ops[0..]) && (Covered(l, a, ops) ==> Covered(l, a, ops[0..]))
  {
    assert ops[0..] == ops;
  }

  lemma {:induction false} RunNext(l: Layout, s: PagingOverMemory.State, a: Space, ops: seq<Op>, k: nat)
    requires PagingOverMemory.Models(l, s, a) && k < |ops| && Covered(l, a, ops[k..])
    ensures Run(l, a, ops[k..]) == Then(l, Step(l, a, ops[k]), ops[k + 1..])
    ensures OpCovered(l, a, ops[k])
    ensures Step(l, a, ops[k]).Done? ==> Covered(l, Step(l, a, ops[k]).value, ops[k + 1..])
  {
    hide Step, Sound, Covered, OpCovered, PagingOverMemory.Models, Total;
    PagingOverMemory.Unfold(l, s, a);
    assert ops[k..][0] == ops[k] && ops[k..][1..] == ops[k + 1..];
    assert ops[k..] == [ops[k]] + ops[k + 1..];
    CoveredStep(l, a, ops[k], ops[k + 1..]);
  }

  lemma {:induction false} RunAtEnd(l: Layout, a: Space, ops: seq<Op>)
    requires Sound(l)
    ensures Run(l, a, ops[|ops|..]) == Done(a) && Run(l, a, []) == Done(a)
  {
  }

  lemma {:induction false} StackOpAsCoded(hhdm: nat, rsp: nat, k: nat)
    ensures StackOp(hhdm, rsp, k)
         == Map(PgRoundDown(U64(rsp - PAGE * k)), PgRoundDown(U64(rsp - hhdm - PAGE * k)), true, true, true, false)
  {
  }

  lemma {:induction false} FramebufferOpAsCoded(hhdm: nat, base: nat, k: nat)
    ensures FramebufferOp(hhdm, base, k)
         == Map(U64(base + hhdm + PAGE * k), U64(base + PAGE * k), false, true, true, true)
  {
  }

  lemma {:induction false} KernelOpAsCoded(physicalBase: nat, k: nat)
    ensures KernelOp(physicalBase, k)
         == Map(KERNEL_VMA + PAGE * k, U64(physicalBase + PAGE * k), true, true, false, false)
  {
  }

  class AddressSpace {
    const pmem: FrameAllocator
    var pml4Addr: nat
    /** The finite map this memory stands for. */
    ghost var space: Space

    constructor (allocator: FrameAllocator)
      ensures pmem == allocator
    {
      pmem := allocator;
      pml4Addr := 0;
      space := Space(map[], map[], 0, {});
    }

    ghost function StateNow(): PagingOverMemory.State
      requires pmem.Shaped()
      reads pmem, pmem.mem
    {
      PagingOverMemory.State(pmem.Contents(), pmem.index)
    }

    ghost predicate Valid()
      reads this, pmem, pmem.mem, pmem.regionInfo
    {
      && pmem.Valid()
      && PagingOverMemory.Models(pmem.LayoutNow(), StateNow(), space)
      && pml4Addr == PAGE * space.tables[Pml4]
    }

    /** The method's outcome and the resulting address space are those of an abstract run. */
    ghost predicate Follows(r: Outcome<()>, run: Outcome<Space>)
      reads this
    {
      (r.Halt? <==> run.Halt?) && (r.Done? ==> space == run.value)
    }

    method LoadEntry(entry: nat, ghost f: nat, ghost i: index9) returns (e: Entry)
      requires pmem.Shaped() && f < FRAMES && V2p(pmem.hhdmoff, entry) == PAGE * f + 8 * i
      ensures e == Slot(pmem.Contents(), f, i)
    {
      hide Decode, Load64, V2p;
      var w := LoadWord(pmem.mem, V2p(pmem.hhdmoff, entry));
      return Decode(w);
    }

    method StoreEntry(entry: nat, e: Entry, ghost f: nat, ghost i: index9)
      requires pmem.Shaped() && f < FRAMES && V2p(pmem.hhdmoff, entry) == PAGE * f + 8 * i
      modifies pmem.mem
      ensures pmem.Contents() == PutSlot(old(pmem.Contents()), f, i, e)
    {
      hide Encode, Store64, V2p;
      StoreWord(pmem.mem, V2p(pmem.hhdmoff, entry), Encode(e));
    }

    /** A bit-field store: the entry is read, one field changed, and the entry written back. */
    method SetField(entry: nat, change: Entry -> Entry, ghost f: nat, ghost i: index9)
      requires pmem.Shaped() && f < FRAMES && V2p(pmem.hhdmoff, entry) == PAGE * f + 8 * i
      modifies pmem.mem
      ensures pmem.Contents() == PutSlot(old(pmem.Contents()), f, i, change(Slot(old(pmem.Contents()), f, i)))
    {
      hide Slot, PutSlot, V2p;
      var e := LoadEntry(entry, f, i);
      StoreEntry(entry, change(e), f, i);
    }

    /** Entry i of an upper table becomes a pointer to the table at physical address child: three field stores. */
    method StorePointer(entry: nat, child: nat, ghost f: nat, ghost i: index9)
      requires pmem.Shaped() && f < FRAMES && V2p(pmem.hhdmoff, entry) == PAGE * f + 8 * i
      modifies pmem.mem
      ensures pmem.Contents() == PutSlot(old(pmem.Contents()), f, i,
                Slot(old(pmem.Contents()), f, i).(present := true, rw := true, ptr := child / PAGE % TWO_40))
    {
      hide Slot, PutSlot, V2p;
      ghost var m, d := pmem.Contents(), Slot(pmem.Contents(), f, i);
      PutCurrent(m, f, i);
      var change := (e: Entry) => e.(present := true);
      SetField(entry, change, f, i);
      FieldsCombine(m, f, i, d, change);
      d := change(d);
      change := (e: Entry) => e.(rw := true);
      SetField(entry, change, f, i);
      FieldsCombine(m, f, i, d, change);
      d := change(d);
      change := (e: Entry) => e.(ptr := child / PAGE % TWO_40);
      SetField(entry, change, f, i);
      FieldsCombine(m, f, i, d, change);
      d := change(d);
    }

    /** The leaf: six field stores. */
    method StoreLeaf(entry: nat, leaf: Leaf, ghost f: nat, ghost i: index9)
      requires pmem.Shaped() && f < FRAMES && V2p(pmem.hhdmoff, entry) == PAGE * f + 8 * i
      modifies pmem.mem
      ensures pmem.Contents() == PutSlot(old(pmem.Contents()), f, i, WithLeaf(Slot(old(pmem.Contents()), f, i), leaf))
      ensures var e, was := Slot(pmem.Contents(), f, i), Slot(old(pmem.Contents()), f, i);
        && e.present && e.rw == leaf.rw && e.us == leaf.us && e.pwt == leaf.pwt && e.nx == leaf.nx
        && e.ptr == leaf.frame && e.pcd == was.pcd && e.accessed == was.accessed && e.bit6 == was.bit6
        && e.bit7 == was.bit7 && e.bit8 == was.bit8 && e.avail == was.avail && e.high == was.high
    {
      hide Slot, PutSlot, V2p;
      ghost var m, d := pmem.Contents(), Slot(pmem.Contents(), f, i);
      PutCurrent(m, f, i);
      var change := (e: Entry) => e.(present := true);
      SetField(entry, change, f, i);
      FieldsCombine(m, f, i, d, change);
      d := change(d);
      change := (e: Entry) => e.(rw := leaf.rw);
      SetField(entry, change, f, i);
      FieldsCombine(m, f, i, d, change);
      d := change(d);
      change := (e: Entry) => e.(us := leaf.us);
      SetField(entry, change, f, i);
      FieldsCombine(m, f, i, d, change);
      d := change(d);
      change := (e: Entry) => e.(pwt := leaf.pwt);
      SetField(entry, change, f, i);
      FieldsCombine(m, f, i, d, change);
      d := change(d);
      change := (e: Entry) => e.(nx := leaf.nx);
      SetField(entry, change, f, i);
      FieldsCombine(m, f, i, d, change);
      d := change(d);
      change := (e: Entry) => e.(ptr := leaf.frame);
      SetField(entry, change, f, i);
      FieldsCombine(m, f, i, d, change);
      d := change(d);
      SlotAfterPut(m, f, i, d, f, i);
    }

    /** One level down: the table below entry i of `table`, allocated and linked if absent. Both the argument and
        the result are pointers into the direct map. */
    method Descend(table: nat, i: index9, ghost f: nat) returns (r: Outcome<nat>)
      requires pmem.Valid() && Roomy(pmem.LayoutNow()) && pmem.index <= Total(pmem.LayoutNow().regions)
      requires f < FRAMES && V2p(pmem.hhdmoff, table) == PAGE * f
      modifies pmem.mem, pmem`index
      ensures r.Halt? <==> PagingOverMemory.Descend(pmem.LayoutNow(), old(StateNow()), f, i).Halt?
      ensures r.Done? ==>
        && PagingOverMemory.Descend(pmem.LayoutNow(), old(StateNow()), f, i)
           == Done((StateNow(), V2p(pmem.hhdmoff, r.value) / PAGE))
        && V2p(pmem.hhdmoff, r.value) % PAGE == 0
    {
      hide Slot, PutSlot, Sound, V2p, P2v, U64, Total, FrameAllocation.TakenAt, FrameAllocation.WalkFrame,
           FrameAllocation.NextAvailable, TablePointer, RawWalk;
      ghost var l := pmem.LayoutNow();
      var entry := U64(table + 8 * i);
      DirectMapOffset(pmem.hhdmoff, table, 8 * i);
      var e := LoadEntry(entry, f, i);
      if !e.present {
        PagingOverMemory.InBounds(l, pmem.Contents(), pmem.index, true);
        r := pmem.FrameAlloc(true);
        if r.Done? {
          var child := r.value;
          StorePointer(entry, child, f, i);
          DirectMapRoundTrip(pmem.hhdmoff, child, 0);
          return Done(P2v(pmem.hhdmoff, child));
        }
      } else {
        DirectMapRoundTrip(pmem.hhdmoff, TablePointer(e), 0);
        return Done(P2v(pmem.hhdmoff, TablePointer(e)));
      }
    }

    /** Maps one page. Halts exactly when the frames for its missing tables run out; otherwise the address space
        becomes the old map with this page set, and memory is the specified function of the old memory. */
    method MapPage(vaddr: nat, paddr: nat, isSupervisor: bool, writable: bool, noExecute: bool, writeThru: bool)
      returns (r: Outcome<()>)
      requires Valid()
      requires OpCovered(pmem.LayoutNow(), space, Map(vaddr, paddr, isSupervisor, writable, noExecute, writeThru))
      modifies this, pmem.mem, pmem`index
      ensures pmem.Valid() && pmem.LayoutNow() == old(pmem.LayoutNow())
      ensures var op := Map(vaddr, paddr, isSupervisor, writable, noExecute, writeThru);
        var step := Step(pmem.LayoutNow(), old(space), op);
        && (r.Halt? <==> step.Halt?)
        && (r.Done? ==> Valid() && space == step.value && pml4Addr == old(pml4Addr))
        && (r.Done? ==> PagingOverMemory.MapPage(pmem.LayoutNow(), old(StateNow()), old(pml4Addr) / PAGE, op)
                        == Done(StateNow()))
      ensures r.Done? ==> var v := PageOf(vaddr);
        && FramesOnPath(space.tables, v)
        && Load64(pmem.Contents(), PAGE * space.tables[TableOf(v)] + 8 * v.i1)
           == 1 + (if writable then 2 else 0) + (if isSupervisor then 4 else 0) + (if writeThru then 8 else 0)
              + PAGE * (paddr / PAGE % TWO_40) + if noExecute then 0x8000_0000_0000_0000 else 0
      ensures r.Done? ==> Walk(pmem.Contents(), pml4Addr / PAGE, PageOf(vaddr))
                          == Mapped(paddr / PAGE % TWO_40, writable, false, noExecute, writeThru)
      ensures r.Done? ==> forall v :: v != PageOf(vaddr) ==>
        Walk(pmem.Contents(), pml4Addr / PAGE, v) == old(Walk(pmem.Contents(), pml4Addr / PAGE, v))
    {
      hide Slot, PutSlot, Sound, V2p, P2v, U64, Total, Step, PageOf, PagingOverMemory.Models,
           PagingOverMemory.Descend,
           WithLeaf, Walk, Covered, Load64;
      ghost var op := Map(vaddr, paddr, isSupervisor, writable, noExecute, writeThru);
      ghost var l, s := pmem.LayoutNow(), StateNow();
      PagingOverMemory.Unfold(l, s, space);
      PagingOverMemory.MapPageSimulates(l, s, space, op);
      MapPageChangesOnePage(l, s, space, op);
      MapPageWords(l, s, space, op);
      var v := PageOf(vaddr);
      DirectMapRoundTrip(pmem.hhdmoff, pml4Addr, 0);
      r := Done(());
      var next := Descend(P2v(pmem.hhdmoff, pml4Addr), v.i4, pml4Addr / PAGE);
      if next.Halt? {
        return Halt(next.site);
      }
      ghost var f3 := V2p(pmem.hhdmoff, next.value) / PAGE;
      next := Descend(next.value, v.i3, f3);
      if next.Halt? {
        return Halt(next.site);
      }
      ghost var f2 := V2p(pmem.hhdmoff, next.value) / PAGE;
      next := Descend(next.value, v.i2, f2);
      if next.Halt? {
        return Halt(next.site);
      }
      ghost var f1 := V2p(pmem.hhdmoff, next.value) / PAGE;
      DirectMapOffset(pmem.hhdmoff, next.value, 8 * v.i1);
      StoreLeaf(U64(next.value + 8 * v.i1), Leaf(paddr / PAGE % TWO_40, writable, isSupervisor, writeThru, noExecute),
                f1, v.i1);
      space := Step(l, space, op).value;
    }

    /** The sixteen stack pages below and including the one of rsp. */
    method MapStack(rsp: nat) returns (r: Outcome<()>)
      requires Valid() && Covered(pmem.LayoutNow(), space, StackOps(pmem.hhdmoff, rsp, STACK_PAGES))
      modifies this, pmem.mem, pmem`index
      ensures pmem.Valid() && pmem.LayoutNow() == old(pmem.LayoutNow())
      ensures Follows(r, Run(pmem.LayoutNow(), old(space), StackOps(pmem.hhdmoff, rsp, STACK_PAGES)))
      ensures r.Done? ==> Valid() && pml4Addr == old(pml4Addr)
    {
      hide FramesOnPath, Load64, Walk, Slot, Sound, Step, Need, OpNeed, FrameAllocation.Trusted, StackOp,
           PagingOverMemory.Models,
           PagingOverMemory.MapPage, StackOps, V2p;
      ghost var l, a := pmem.LayoutNow(), space;
      PagingOverMemory.Unfold(l, StateNow(), a);
      ghost var ops := StackOps(pmem.hhdmoff, rsp, STACK_PAGES);
      ghost var k: nat := 0;
      var bytes := 0;
      RunFromStart(l, a, ops);
      while bytes < 16 * PAGE
        invariant k <= 16 && bytes == PAGE * k
        invariant Valid() && pmem.LayoutNow() == l && pml4Addr == old(pml4Addr)
        invariant Run(l, a, ops) == Run(l, space, ops[k..]) && Covered(l, space, ops[k..])
        decreases 16 - k
      {
        RunNext(l, StateNow(), space, ops, k);
        StackOpAsCoded(pmem.hhdmoff, rsp, k);
        r := MapPage(PgRoundDown(U64(rsp - bytes)), PgRoundDown(U64(rsp - pmem.hhdmoff - bytes)), true, true, true,
                     false);
        if r.Halt? {
          return;
        }
        bytes := bytes + PAGE;
        k := k + 1;
      }
      RunAtEnd(l, space, ops);
      return Done(());
    }

    /** One framebuffer entry, page by page. */
    method MapBuffer(base: nat, length: nat) returns (r: Outcome<()>)
      requires Valid() && length + PAGE <= TWO_64
      requires Covered(pmem.LayoutNow(), space, BufferOps(pmem.hhdmoff, base, CeilDiv(length, PAGE)))
      modifies this, pmem.mem, pmem`index
      ensures pmem.Valid() && pmem.LayoutNow() == old(pmem.LayoutNow())
      ensures Follows(r, Run(pmem.LayoutNow(), old(space), BufferOps(pmem.hhdmoff, base, CeilDiv(length, PAGE))))
      ensures r.Done? ==> Valid() && pml4Addr == old(pml4Addr)
    {
      hide FramesOnPath, Load64, Walk, Slot, Sound, Step, Need, OpNeed, FrameAllocation.Trusted, FramebufferOp,
           PagingOverMemory.Models,
           PagingOverMemory.MapPage, BufferOps, V2p, CeilDiv;
      ghost var l, a := pmem.LayoutNow(), space;
      PagingOverMemory.Unfold(l, StateNow(), a);
      ghost var n := CeilDiv(length, PAGE);
      ghost var ops := BufferOps(pmem.hhdmoff, base, n);
      ghost var k: nat := 0;
      var bytes := 0;
      RunFromStart(l, a, ops);
      while bytes < length
        invariant k <= n && bytes == PAGE * k
        invariant Valid() && pmem.LayoutNow() == l && pml4Addr == old(pml4Addr)
        invariant Run(l, a, ops) == Run(l, space, ops[k..]) && Covered(l, space, ops[k..])
        decreases n - k
      {
        RunNext(l, StateNow(), space, ops, k);
        FramebufferOpAsCoded(pmem.hhdmoff, base, k);
        r := MapPage(U64(base + pmem.hhdmoff + bytes), U64(base + bytes), false, true, true, true);
        if r.Halt? {
          return;
        }
        NoWrap(bytes + PAGE);
        bytes := U64(bytes + PAGE);
        k := k + 1;
      }
      RunAtEnd(l, space, ops);
      return Done(());
    }

    /** All framebuffer entries; the counter is a uint8_t. */
    method MapFramebuffers(es: seq<MemmapEntry>) returns (r: Outcome<()>)
      requires Valid() && |es| < 256 && forall e :: e in es ==> e.length + PAGE <= TWO_64
      requires Covered(pmem.LayoutNow(), space, FramebufferOps(pmem.hhdmoff, es))
      modifies this, pmem.mem, pmem`index
      ensures pmem.Valid() && pmem.LayoutNow() == old(pmem.LayoutNow())
      ensures Follows(r, Run(pmem.LayoutNow(), old(space), FramebufferOps(pmem.hhdmoff, es)))
      ensures r.Done? ==> Valid() && pml4Addr == old(pml4Addr)
    {
      hide Slot, Sound, Run, Need, FrameAllocation.Trusted, PagingOverMemory.Models, BufferOps, V2p, CeilDiv;
      ghost var l, a := pmem.LayoutNow(), space;
      PagingOverMemory.Unfold(l, StateNow(), a);
      assert es[0..] == es;
      var i: nat := 0;
      while i < |es|
        invariant i <= |es|
        invariant Valid() && pmem.LayoutNow() == l && pml4Addr == old(pml4Addr)
        invariant Run(l, a, FramebufferOps(pmem.hhdmoff, es)) == Run(l, space, FramebufferOps(pmem.hhdmoff, es[i..]))
        invariant Covered(l, space, FramebufferOps(pmem.hhdmoff, es[i..]))
      {
        var e := es[i];
        assert es[i..][0] == e && es[i..][1..] == es[i + 1..];
        if e.kind == Framebuffer {
          RunSplit(l, StateNow(), space, BufferOps(pmem.hhdmoff, e.base, CeilDiv(e.length, PAGE)),
                   FramebufferOps(pmem.hhdmoff, es[i + 1..]));
          r := MapBuffer(e.base, e.length);
          if r.Halt? {
            return;
          }
        } else {
          assert [] + FramebufferOps(pmem.hhdmoff, es[i + 1..]) == FramebufferOps(pmem.hhdmoff, es[i + 1..]);
        }
        i := (i + 1) % 256;
      }
      assert es[|es|..] == [];
      RunAtEnd(l, space, []);
      return Done(());
    }

    /** The kernel image, up to and including the page at KERNEL_END. */
    method MapKernel(physicalBase: nat, kernelEnd: nat) returns (r: Outcome<()>)
      requires Valid() && kernelEnd + PAGE < TWO_64
      requires Covered(pmem.LayoutNow(), space, KernelOps(physicalBase, KernelPages(kernelEnd)))
      modifies this, pmem.mem, pmem`index
      ensures pmem.Valid() && pmem.LayoutNow() == old(pmem.LayoutNow())
      ensures Follows(r, Run(pmem.LayoutNow(), old(space), KernelOps(physicalBase, KernelPages(kernelEnd))))
      ensures r.Done? ==> Valid() && pml4Addr == old(pml4Addr)
    {
      hide FramesOnPath, Load64, Walk, Slot, Sound, Step, Need, OpNeed, FrameAllocation.Trusted, KernelOp,
           PagingOverMemory.Models,
           PagingOverMemory.MapPage, KernelOps, V2p;
      ghost var l, a := pmem.LayoutNow(), space;
      PagingOverMemory.Unfold(l, StateNow(), a);
      ghost var n := KernelPages(kernelEnd);
      ghost var ops := KernelOps(physicalBase, n);
      ghost var k: nat := 0;
      var bytes, addr := 0, KERNEL_VMA;
      RunFromStart(l, a, ops);
      while addr <= kernelEnd
        invariant k <= n && bytes == PAGE * k && addr == KERNEL_VMA + PAGE * k
        invariant Valid() && pmem.LayoutNow() == l && pml4Addr == old(pml4Addr)
        invariant Run(l, a, ops) == Run(l, space, ops[k..]) && Covered(l, space, ops[k..])
        decreases n - k
      {
        RunNext(l, StateNow(), space, ops, k);
        KernelOpAsCoded(physicalBase, k);
        r := MapPage(addr, U64(physicalBase + bytes), true, true, false, false);
        if r.Halt? {
          return;
        }
        bytes := bytes + PAGE;
        NoWrap(addr + PAGE);
        addr := U64(addr + PAGE);
        k := k + 1;
      }
      RunAtEnd(l, space, ops);
      return Done(());
    }

    /** The PML4 itself: a zeroed frame, an address space that maps nothing. */
    method CreatePml4() returns (r: Outcome<()>)
      requires pmem.Valid() && Roomy(pmem.LayoutNow())
      requires FrameAllocation.InOrder(pmem.LayoutNow(), pmem.Contents(), pmem.index)
      requires pmem.index < Total(pmem.LayoutNow().regions) ==>
                 FrameAllocation.Trusted(pmem.LayoutNow(), pmem.index + 1)
      modifies this, pmem.mem, pmem`index
      ensures pmem.Valid() && pmem.LayoutNow() == old(pmem.LayoutNow())
      ensures r.Halt? <==> old(pmem.index) >= Total(pmem.LayoutNow().regions)
      ensures r.Done? ==> Valid() && pml4Addr == PAGE * FrameAllocation.PageFrame(pmem.LayoutNow(), old(pmem.index))
      ensures r.Done? ==> space == Space(map[Pml4 := pml4Addr / PAGE], map[], old(pmem.index) + 1, {})
    {
      hide Slot, Sound, PagingOverMemory.Models, Total, FrameAllocation.PageFrame, FrameAllocation.InOrder,
           FrameAllocation.FrameAlloc, FrameAllocation.Taken, FrameAllocation.Trusted;
      ghost var l, s := pmem.LayoutNow(), StateNow();
      PagingOverMemory.IndexInRange(l, s);
      FrameAllocation.AllocInOrder(l, s.mem, s.index, true);
      var frame := pmem.FrameAlloc(true);
      if frame.Halt? {
        return Halt(frame.site);
      }
      FreshSpace(l, s);
      pml4Addr := frame.value;
      space := Space(map[Pml4 := pml4Addr / PAGE], map[], pmem.index, {});
      return Done(());
    }

    /** Builds the kernel's address space. It halts exactly when frames run out; otherwise the address space is the
        one the listed map_page calls produce from a zeroed PML4 in the next frame. */
    method InitializePaging(es: seq<MemmapEntry>, physicalBase: nat, kernelEnd: nat, rsp: nat) returns (r: Outcome<()>)
      requires pmem.Valid() && Roomy(pmem.LayoutNow())
      requires FrameAllocation.InOrder(pmem.LayoutNow(), pmem.Contents(), pmem.index)
      requires FrameAllocation.Trusted(pmem.LayoutNow(), pmem.index +
                 InitialDemand(pmem.LayoutNow(), pmem.hhdmoff, pmem.index, es, physicalBase, kernelEnd, rsp))
      requires kernelEnd + PAGE < TWO_64 && |es| <= MAX_REGIONS && forall e :: e in es ==> e.length + PAGE <= TWO_64
      modifies this, pmem.mem, pmem`index
      ensures pmem.Valid() && pmem.LayoutNow() == old(pmem.LayoutNow())
      ensures Follows(r, InitialSpace(pmem.LayoutNow(), pmem.hhdmoff, old(pmem.index), es, physicalBase, kernelEnd,
                                      rsp))
      ensures r.Done? ==> Valid() && pml4Addr == PAGE * FrameAllocation.PageFrame(pmem.LayoutNow(), old(pmem.index))
    {
      hide FramesOnPath, Load64, Walk, Slot, Sound, Step, Run, PagingOverMemory.Models, StackOps, FramebufferOps,
           KernelOps, V2p, P2v, Total,
           Covered, FrameAllocation.PageFrame, FrameAllocation.InOrder, FrameAllocation.Trusted,
           PagingOverMemory.MapPage, CeilDiv, KernelPages, U64, NodesOf, PagesOf;
      ghost var l := pmem.LayoutNow();
      FirstFrame(l, pmem.hhdmoff, pmem.index, es, physicalBase, kernelEnd, rsp);
      r := CreatePml4();
      if r.Halt? {
        return;
      }
      InGroups(l, StateNow(), space, Pml4Op(pmem.hhdmoff, pml4Addr), StackOps(pmem.hhdmoff, rsp, STACK_PAGES),
               FramebufferOps(pmem.hhdmoff, es), KernelOps(physicalBase, KernelPages(kernelEnd)));
      r := MapPage(P2v(pmem.hhdmoff, pml4Addr), pml4Addr, true, true, true, false);
      if r.Halt? {
        return;
      }
      r := MapStack(rsp);
      if r.Halt? {
        return;
      }
      r := MapFramebuffers(es);
      if r.Halt? {
        return;
      }
      r := MapKernel(physicalBase, kernelEnd);
    }
  }
}
