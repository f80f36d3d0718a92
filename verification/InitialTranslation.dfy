/** What initialize_paging leaves mapped: the translation of every canonical address. */
module InitialTranslation {
  import opened MachineInts
  import opened PhysicalMemory
  import opened Entries
  import opened Regions
  import opened BootMap
  import opened FrameAllocation
  import opened PageTables
  import opened AbstractPaging
  import opened PagingOverMemory
  import PagingTheorems
  import opened InitialMappings

  const HIGHER_HALF: nat := 0xffff_8000_0000_0000

  lemma {:induction false} UpdatedConcat(pages: Pages, xs: seq<Op>, ys: seq<Op>)
    ensures Updated(pages, xs + ys) == Updated(Updated(pages, xs), ys)
    decreases |xs|
  {
    hide PageOf, LeafOf;
    if xs == [] {
      assert xs + ys == ys;
    } else {
      assert (xs + ys)[0] == xs[0] && (xs + ys)[1..] == xs[1..] + ys;
      UpdatedConcat(if xs[0].Map? then pages[PageOf(xs[0].vaddr) := LeafOf(xs[0])] else pages, xs[1..], ys);
    }
  }

  /** Some request in ops is for page v. */
  ghost predicate Requests(ops: seq<Op>, v: VPage) {
    exists op :: op in ops && op.Map? && PageOf(op.vaddr) == v
  }

  /** If all requests for v within a group agree, the group sets v to what they agree on, or leaves it alone. */
  lemma {:induction false} UniformGroup(pages: Pages, ops: seq<Op>, v: VPage, leaf: Leaf)
    requires forall op :: op in ops && op.Map? && PageOf(op.vaddr) == v ==> LeafOf(op) == leaf
    ensures Requests(ops, v) ==> v in Updated(pages, ops) && Updated(pages, ops)[v] == leaf
    ensures !Requests(ops, v) ==> (v in Updated(pages, ops) <==> v in pages)
    ensures !Requests(ops, v) && v in pages ==> Updated(pages, ops)[v] == pages[v]
    decreases |ops|
  {
    hide PageOf, LeafOf;
    if ops == [] {
    } else {
      var next := if ops[0].Map? then pages[PageOf(ops[0].vaddr) := LeafOf(ops[0])] else pages;
      UniformGroup(next, ops[1..], v, leaf);
      assert ops[0] in ops;
      if Requests(ops, v) && !Requests(ops[1..], v) {
        var op :| op in ops && op.Map? && PageOf(op.vaddr) == v;
        assert op == ops[0];
      }
      if Requests(ops[1..], v) {
        var op :| op in ops[1..] && op.Map? && PageOf(op.vaddr) == v;
        assert op in ops;
      }
    }
  }

  /** The direct map sits in the higher half; everything it is used for lies below 2^47 in physical memory. */
  predicate SaneBoot(hhdm: nat, pml4: nat, rsp: nat, es: seq<MemmapEntry>, physicalBase: nat, kernelEnd: nat) {
    && HIGHER_HALF <= hhdm && hhdm % PAGE == 0 && hhdm + pml4 < TWO_64 && pml4 % PAGE == 0
    && hhdm + PAGE * STACK_PAGES <= rsp < TWO_64
    && (forall e :: e in es && e.kind == Framebuffer ==> hhdm + e.base + e.length + PAGE < TWO_64)
    && KERNEL_VMA <= kernelEnd && kernelEnd + PAGE < TWO_64
    && physicalBase % PAGE == 0 && physicalBase + (kernelEnd - KERNEL_VMA) < PHYS_SIZE
  }

  predicate KernelPage(kernelEnd: nat, x: nat) {
    KERNEL_VMA <= x && x / PAGE <= kernelEnd / PAGE
  }

  predicate StackPage(rsp: nat, x: nat) {
    rsp / PAGE - (STACK_PAGES - 1) <= x / PAGE <= rsp / PAGE
  }

  /** Page number of the k-th page of a framebuffer at base, seen through the direct map. */
  function BufferPage(hhdm: nat, base: nat, k: nat): nat {
    (hhdm + base) / PAGE + k
  }

  ghost predicate FramebufferPage(hhdm: nat, es: seq<MemmapEntry>, x: nat) {
    exists e, k: nat :: e in es && e.kind == Framebuffer && k < CeilDiv(e.length, PAGE)
                     && x / PAGE == BufferPage(hhdm, e.base, k)
  }

  lemma {:induction false} RoundDownPage(x: nat)
    ensures PgRoundDown(x) / PAGE == x / PAGE && PgRoundDown(x) <= x
  {
  }

  /** Subtracting an aligned amount subtracts page numbers. */
  lemma {:induction false} SubtractPages(x: nat, d: nat)
    requires d % PAGE == 0 && d / PAGE <= x / PAGE
    ensures d <= x && (x - d) / PAGE == x / PAGE - d / PAGE
  {
  }

  lemma {:induction false} StackRequest(hhdm: nat, rsp: nat, k: nat, x: nat)
    requires HIGHER_HALF <= hhdm && hhdm % PAGE == 0 && hhdm + PAGE * STACK_PAGES <= rsp < TWO_64
    requires k < STACK_PAGES && Canonical(x)
    ensures PageOf(StackOp(hhdm, rsp, k).vaddr) == PageOf(x) <==> x / PAGE == rsp / PAGE - k
    ensures x / PAGE == rsp / PAGE - k ==>
      hhdm <= x && LeafOf(StackOp(hhdm, rsp, k)) == Leaf((x - hhdm) / PAGE, true, true, false, true)
  {
    hide PageOf;
    var op := StackOp(hhdm, rsp, k);
    NoWrap(rsp - PAGE * k);
    NoWrap(rsp - hhdm - PAGE * k);
    RoundDownPage(rsp - PAGE * k);
    RoundDownPage(rsp - hhdm - PAGE * k);
    assert (rsp - PAGE * k) / PAGE == rsp / PAGE - k;
    SubtractPages(rsp - PAGE * k, hhdm);
    LeafSlotIsPage(op.vaddr, x);
    if x / PAGE == rsp / PAGE - k {
      SubtractPages(x, hhdm);
    }
  }

  lemma {:induction false} LastBufferPage(n: nat, k: nat)
    requires k < CeilDiv(n, PAGE)
    ensures PAGE * k < n
  {
  }

  lemma {:induction false} AddPages(x: nat, k: nat)
    ensures (x + PAGE * k) / PAGE == x / PAGE + k
  {
  }

  lemma {:induction false} BufferRequest(hhdm: nat, e: MemmapEntry, k: nat, x: nat)
    requires HIGHER_HALF <= hhdm && hhdm % PAGE == 0 && hhdm + e.base + e.length + PAGE < TWO_64
    requires k < CeilDiv(e.length, PAGE) && Canonical(x)
    ensures PageOf(FramebufferOp(hhdm, e.base, k).vaddr) == PageOf(x) <==> x / PAGE == BufferPage(hhdm, e.base, k)
    ensures x / PAGE == BufferPage(hhdm, e.base, k) ==>
      hhdm <= x && LeafOf(FramebufferOp(hhdm, e.base, k)) == Leaf((x - hhdm) / PAGE, true, false, true, true)
  {
    hide PageOf, CeilDiv;
    var op := FramebufferOp(hhdm, e.base, k);
    LastBufferPage(e.length, k);
    NoWrap(e.base + hhdm + PAGE * k);
    NoWrap(e.base + PAGE * k);
    AddPages(hhdm + e.base, k);
    LeafSlotIsPage(op.vaddr, x);
    SubtractPages(op.vaddr, hhdm);
    if x / PAGE == BufferPage(hhdm, e.base, k) {
      SubtractPages(x, hhdm);
    }
  }

  lemma {:induction false} KernelRequest(physicalBase: nat, kernelEnd: nat, k: nat, x: nat)
    requires KERNEL_VMA <= kernelEnd && kernelEnd + PAGE < TWO_64
    requires physicalBase % PAGE == 0 && physicalBase + (kernelEnd - KERNEL_VMA) < PHYS_SIZE
    requires k < KernelPages(kernelEnd) && Canonical(x)
    ensures PageOf(KernelOp(physicalBase, k).vaddr) == PageOf(x) <==> x / PAGE == KERNEL_VMA / PAGE + k
    ensures x / PAGE == KERNEL_VMA / PAGE + k ==>
      && KERNEL_VMA <= x
      && LeafOf(KernelOp(physicalBase, k))
         == Leaf((physicalBase + (x - KERNEL_VMA)) / PAGE % TWO_40, true, true, false, false)
  {
    hide PageOf;
    var op := KernelOp(physicalBase, k);
    AddPages(KERNEL_VMA, k);
    AddPages(physicalBase, k);
    NoWrap(physicalBase + PAGE * k);
    LeafSlotIsPage(op.vaddr, x);
    if x / PAGE == KERNEL_VMA / PAGE + k {
      SubtractPages(x, KERNEL_VMA);
      AddPages(x - KERNEL_VMA, physicalBase / PAGE);
      assert physicalBase + (x - KERNEL_VMA) == (x - KERNEL_VMA) + PAGE * (physicalBase / PAGE);
    }
  }

  function DirectLeaf(hhdm: nat, x: nat, framebuffer: bool): Leaf
    requires hhdm <= x
  {
    Leaf((x - hhdm) / PAGE % TWO_40, true, !framebuffer, framebuffer, true)
  }

  function KernelLeaf(physicalBase: nat, x: nat): Leaf
    requires KERNEL_VMA <= x
  {
    Leaf((physicalBase + (x - KERNEL_VMA)) / PAGE % TWO_40, true, true, false, false)
  }

  lemma {:induction false} StackOpIsMap(hhdm: nat, rsp: nat, k: nat)
    ensures StackOp(hhdm, rsp, k).Map?
  {
  }

  lemma {:induction false} StackGroup(hhdm: nat, rsp: nat, x: nat)
    requires HIGHER_HALF <= hhdm && hhdm % PAGE == 0 && hhdm + PAGE * STACK_PAGES <= rsp < TWO_64 && Canonical(x)
    ensures var ops := StackOps(hhdm, rsp, STACK_PAGES);
      && (Requests(ops, PageOf(x)) <==> StackPage(rsp, x))
      && (StackPage(rsp, x) ==> hhdm <= x)
      && forall op :: op in ops && op.Map? && PageOf(op.vaddr) == PageOf(x) ==>
           hhdm <= x && LeafOf(op) == DirectLeaf(hhdm, x, false)
  {
    hide PageOf, LeafOf, StackOp;
    var ops := StackOps(hhdm, rsp, STACK_PAGES);
    forall op | op in ops && op.Map? && PageOf(op.vaddr) == PageOf(x)
      ensures StackPage(rsp, x) && hhdm <= x && LeafOf(op) == DirectLeaf(hhdm, x, false)
    {
      var k: nat :| k < |ops| && ops[k] == op;
      StackRequest(hhdm, rsp, k, x);
    }
    if StackPage(rsp, x) {
      var k := rsp / PAGE - x / PAGE;
      StackRequest(hhdm, rsp, k, x);
      assert ops[k] == StackOp(hhdm, rsp, k);
      StackOpIsMap(hhdm, rsp, k);
    }
  }

  lemma {:induction false} BufferOpIsMap(hhdm: nat, base: nat, k: nat)
    ensures FramebufferOp(hhdm, base, k).Map?
  {
  }

  lemma {:induction false} BufferGroup(hhdm: nat, es: seq<MemmapEntry>, x: nat)
    requires HIGHER_HALF <= hhdm && hhdm % PAGE == 0 && Canonical(x)
    requires forall e :: e in es && e.kind == Framebuffer ==> hhdm + e.base + e.length + PAGE < TWO_64
    ensures var ops := FramebufferOps(hhdm, es);
      && (Requests(ops, PageOf(x)) <==> FramebufferPage(hhdm, es, x))
      && (FramebufferPage(hhdm, es, x) ==> hhdm <= x)
      && forall op :: op in ops && op.Map? && PageOf(op.vaddr) == PageOf(x) ==>
           hhdm <= x && LeafOf(op) == DirectLeaf(hhdm, x, true)
  {
    hide PageOf, LeafOf, FramebufferOp, BufferPage, CeilDiv;
    var ops := FramebufferOps(hhdm, es);
    forall op | op in ops && op.Map? && PageOf(op.vaddr) == PageOf(x)
      ensures FramebufferPage(hhdm, es, x) && hhdm <= x && LeafOf(op) == DirectLeaf(hhdm, x, true)
    {
      FramebufferElements(hhdm, es, op);
      var e, k: nat :| e in es && e.kind == Framebuffer && k < CeilDiv(e.length, PAGE)
                       && op == FramebufferOp(hhdm, e.base, k);
      BufferRequest(hhdm, e, k, x);
    }
    if FramebufferPage(hhdm, es, x) {
      var e, k: nat :| e in es && e.kind == Framebuffer && k < CeilDiv(e.length, PAGE)
                       && x / PAGE == BufferPage(hhdm, e.base, k);
      BufferRequest(hhdm, e, k, x);
      FramebufferElements(hhdm, es, FramebufferOp(hhdm, e.base, k));
      BufferOpIsMap(hhdm, e.base, k);
    }
  }

  lemma {:induction false} KernelOpIsMap(physicalBase: nat, k: nat)
    ensures KernelOp(physicalBase, k).Map?
  {
  }

  lemma {:induction false} KernelGroup(physicalBase: nat, kernelEnd: nat, x: nat)
    requires KERNEL_VMA <= kernelEnd && kernelEnd + PAGE < TWO_64 && Canonical(x)
    requires physicalBase % PAGE == 0 && physicalBase + (kernelEnd - KERNEL_VMA) < PHYS_SIZE
    ensures var ops := KernelOps(physicalBase, KernelPages(kernelEnd));
      && (Requests(ops, PageOf(x)) <==> KernelPage(kernelEnd, x))
      && (KernelPage(kernelEnd, x) ==> KERNEL_VMA <= x)
      && forall op :: op in ops && op.Map? && PageOf(op.vaddr) == PageOf(x) ==>
           KERNEL_VMA <= x && LeafOf(op) == KernelLeaf(physicalBase, x)
  {
    hide PageOf, LeafOf, KernelOp;
    var ops := KernelOps(physicalBase, KernelPages(kernelEnd));
    SubtractPages(kernelEnd, KERNEL_VMA);
    forall op | op in ops && op.Map? && PageOf(op.vaddr) == PageOf(x)
      ensures KernelPage(kernelEnd, x) && KERNEL_VMA <= x && LeafOf(op) == KernelLeaf(physicalBase, x)
    {
      var k: nat :| k < |ops| && ops[k] == op;
      KernelRequest(physicalBase, kernelEnd, k, x);
    }
    if KernelPage(kernelEnd, x) {
      var k := x / PAGE - KERNEL_VMA / PAGE;
      KernelRequest(physicalBase, kernelEnd, k, x);
      assert ops[k] == KernelOp(physicalBase, k);
      KernelOpIsMap(physicalBase, k);
    }
  }

  lemma {:induction false} Pml4Group(hhdm: nat, pml4: nat, x: nat)
    requires HIGHER_HALF <= hhdm && hhdm % PAGE == 0 && hhdm + pml4 < TWO_64 && pml4 % PAGE == 0 && Canonical(x)
    ensures var ops := [Pml4Op(hhdm, pml4)];
      && (Requests(ops, PageOf(x)) <==> x / PAGE == (hhdm + pml4) / PAGE)
      && (x / PAGE == (hhdm + pml4) / PAGE ==> hhdm <= x)
      && forall op :: op in ops && op.Map? && PageOf(op.vaddr) == PageOf(x) ==>
           hhdm <= x && LeafOf(op) == DirectLeaf(hhdm, x, false)
  {
    hide PageOf;
    var op := Pml4Op(hhdm, pml4);
    NoWrap(pml4 + hhdm);
    LeafSlotIsPage(op.vaddr, x);
    assert op in [op];
    if x / PAGE == (hhdm + pml4) / PAGE {
      SubtractPages(x, hhdm);
      SubtractPages(hhdm + pml4, hhdm);
    }
  }

  /** What initialize_paging asks for the page of x: the kernel image first, then framebuffers, then the stack and
      the PML4 itself; nothing for any other page. */
  ghost function InitialLeaf(hhdm: nat, pml4: nat, rsp: nat, es: seq<MemmapEntry>, physicalBase: nat, kernelEnd: nat,
                             x: nat): Option<Leaf>
    requires SaneBoot(hhdm, pml4, rsp, es, physicalBase, kernelEnd) && Canonical(x)
  {
    if KernelPage(kernelEnd, x) then Some(KernelLeaf(physicalBase, x))
    else if x < hhdm then None
    else if FramebufferPage(hhdm, es, x) then Some(DirectLeaf(hhdm, x, true))
    else if StackPage(rsp, x) || x / PAGE == (hhdm + pml4) / PAGE then Some(DirectLeaf(hhdm, x, false))
    else None
  }

  function Lookup(pages: Pages, v: VPage): Option<Leaf> {
    if v in pages then Some(pages[v]) else None
  }

  lemma {:induction false} InitialPages(hhdm: nat, pml4: nat, rsp: nat, es: seq<MemmapEntry>, physicalBase: nat,
                                        kernelEnd: nat, x: nat)
    requires SaneBoot(hhdm, pml4, rsp, es, physicalBase, kernelEnd) && Canonical(x)
    ensures Lookup(Updated(map[], InitOps(hhdm, pml4, rsp, es, physicalBase, kernelEnd)), PageOf(x))
         == InitialLeaf(hhdm, pml4, rsp, es, physicalBase, kernelEnd, x)
  {
    hide PageOf, LeafOf, Updated, Requests, StackOps, FramebufferOps, KernelOps, Pml4Op, FramebufferPage, StackPage,
         KernelPage, DirectLeaf, KernelLeaf;
    var v := PageOf(x);
    var g0, g1, g2, g3 := [Pml4Op(hhdm, pml4)], StackOps(hhdm, rsp, STACK_PAGES), FramebufferOps(hhdm, es),
      KernelOps(physicalBase, KernelPages(kernelEnd));
    var p0 := Updated(map[], g0);
    var p1 := Updated(p0, g1);
    var p2 := Updated(p1, g2);
    UpdatedConcat(map[], g0 + g1 + g2, g3);
    UpdatedConcat(map[], g0 + g1, g2);
    UpdatedConcat(map[], g0, g1);
    Pml4Group(hhdm, pml4, x);
    StackGroup(hhdm, rsp, x);
    BufferGroup(hhdm, es, x);
    KernelGroup(physicalBase, kernelEnd, x);
    var any := Leaf(0, false, false, false, false);
    var plain := if hhdm <= x then DirectLeaf(hhdm, x, false) else any;
    UniformGroup(map[], g0, v, plain);
    UniformGroup(p0, g1, v, plain);
    UniformGroup(p1, g2, v, if hhdm <= x then DirectLeaf(hhdm, x, true) else any);
    UniformGroup(p2, g3, v, if KERNEL_VMA <= x then KernelLeaf(physicalBase, x) else any);
  }

  lemma {:induction false} InitialSpacePages(l: Layout, a: Space, hhdm: nat, index: nat, es: seq<MemmapEntry>,
                                             physicalBase: nat, kernelEnd: nat, rsp: nat)
    requires Sound(l) && index < Total(l.regions)
    requires InitialSpace(l, hhdm, index, es, physicalBase, kernelEnd, rsp) == Done(a)
    ensures a.pages == Updated(map[], InitOps(hhdm, PAGE * PageFrame(l, index), rsp, es, physicalBase, kernelEnd))
  {
    hide Updated, InitOps, Run, Sound, Total, PageFrame, NodesOf, PagesOf, TakesOf;
    RunCount(l, Space(map[Pml4 := PageFrame(l, index)], map[], index + 1, {}),
             InitOps(hhdm, PAGE * PageFrame(l, index), rsp, es, physicalBase, kernelEnd));
  }

  lemma {:induction false} UpdatedKeys(pages: Pages, ops: seq<Op>)
    ensures Updated(pages, ops).Keys == pages.Keys + PagesOf(ops)
    decreases |ops|
  {
    hide PageOf, LeafOf;
    if ops == [] {
    } else {
      UpdatedKeys(if ops[0].Map? then pages[PageOf(ops[0].vaddr) := LeafOf(ops[0])] else pages, ops[1..]);
    }
  }

  /** initialize_paging succeeds exactly when the frames left cover the tables its pages need, the PML4 included. */
  lemma {:induction false} InitialFrames(l: Layout, hhdm: nat, index: nat, es: seq<MemmapEntry>, physicalBase: nat,
                                         kernelEnd: nat, rsp: nat)
    requires Sound(l) && index < Total(l.regions)
    ensures var r := InitialSpace(l, hhdm, index, es, physicalBase, kernelEnd, rsp);
      var K := PagesOf(InitOps(hhdm, PAGE * PageFrame(l, index), rsp, es, physicalBase, kernelEnd));
      && (r.Done? <==> index + |NodesOf(K)| <= Total(l.regions))
      && (r.Done? ==> r.value.index == index + |NodesOf(K)| && r.value.pages.Keys == K)
  {
    hide InitOps, Run, Sound, Total, PageFrame, NodesOf, PagesOf, TakesOf, Updated;
    var ops := InitOps(hhdm, PAGE * PageFrame(l, index), rsp, es, physicalBase, kernelEnd);
    var a := Space(map[Pml4 := PageFrame(l, index)], map[], index + 1, {});
    RunCount(l, a, ops);
    AllRequestsAreMaps(hhdm, PAGE * PageFrame(l, index), rsp, es, physicalBase, kernelEnd);
    PagingTheorems.OnlyMaps(l, a, ops);
    PagingTheorems.RootIncluded(PagesOf(ops), a.tables.Keys);
    UpdatedKeys(map[], ops);
  }

  /** Where a canonical address should go once paging is set up: a kernel address x to
      physical_base + (x - KERNEL_VMA), a stack, framebuffer or PML4 address to x minus the direct-map offset,
      anything else nowhere. All mapped pages are writable, none user-accessible, and exactly the pages outside the
      kernel image are no-execute. */
  ghost function Expected(hhdm: nat, pml4: nat, rsp: nat, es: seq<MemmapEntry>, physicalBase: nat, kernelEnd: nat,
                          x: nat): Translation
  {
    if KernelPage(kernelEnd, x)
    then Mapped((physicalBase + (x - KERNEL_VMA)) / PAGE, true, false, false, false)
    else if hhdm <= x && (FramebufferPage(hhdm, es, x) || StackPage(rsp, x) || x / PAGE == (hhdm + pml4) / PAGE)
    then Mapped((x - hhdm) / PAGE, true, false, true, FramebufferPage(hhdm, es, x))
    else Fault
  }

  /** No frame number is cut short by the 40-bit field. */
  lemma {:induction false} FramesFit(hhdm: nat, pml4: nat, rsp: nat, es: seq<MemmapEntry>, physicalBase: nat,
                                     kernelEnd: nat, x: nat)
    requires SaneBoot(hhdm, pml4, rsp, es, physicalBase, kernelEnd) && Canonical(x)
    ensures KernelPage(kernelEnd, x) ==> KERNEL_VMA <= x && (physicalBase + (x - KERNEL_VMA)) / PAGE < TWO_40
    ensures hhdm <= x ==> (x - hhdm) / PAGE < TWO_40
  {
  }

  /** The hardware walk of every canonical address after initialize_paging. */
  lemma {:induction false} InitialWalk(l: Layout, s: State, a: Space, hhdm: nat, index: nat, es: seq<MemmapEntry>,
                                       physicalBase: nat, kernelEnd: nat, rsp: nat, x: nat)
    requires Models(l, s, a) && index < Total(l.regions) && Canonical(x)
    ensures var pml4 := PAGE * PageFrame(l, index);
      InitialSpace(l, hhdm, index, es, physicalBase, kernelEnd, rsp) == Done(a)
      && SaneBoot(hhdm, pml4, rsp, es, physicalBase, kernelEnd)
      ==> Walk(s.mem, a.tables[Pml4], PageOf(x)) == Expected(hhdm, pml4, rsp, es, physicalBase, kernelEnd, x)
  {
    hide Walk, PageOf, Updated, FramebufferPage, StackPage, InitOps, Sound, InOrder, Owned, Tree, Total, Trusted,
         PageFrame, KernelPage, SaneBoot, Run, InitialSpace;
    Unfold(l, s, a);
    if InitialSpace(l, hhdm, index, es, physicalBase, kernelEnd, rsp) == Done(a)
       && SaneBoot(hhdm, PAGE * PageFrame(l, index), rsp, es, physicalBase, kernelEnd) {
      InitialSpacePages(l, a, hhdm, index, es, physicalBase, kernelEnd, rsp);
      InitialPages(hhdm, PAGE * PageFrame(l, index), rsp, es, physicalBase, kernelEnd, x);
      WalkIsLookup(s.mem, a.tables, a.pages, PageOf(x));
      FramesFit(hhdm, PAGE * PageFrame(l, index), rsp, es, physicalBase, kernelEnd, x);
    }
  }

  /** And the word in memory behind it: kernel pages have bits 0 to 2 set, stack pages and the PML4 also bit 63,
      framebuffer pages bits 0, 1, 3 and 63; the frame stands from bit 12 on. */
  lemma {:induction false} InitialWord(l: Layout, s: State, a: Space, hhdm: nat, index: nat, es: seq<MemmapEntry>,
                                       physicalBase: nat, kernelEnd: nat, rsp: nat, x: nat)
    requires Models(l, s, a) && index < Total(l.regions) && Canonical(x)
    requires InitialSpace(l, hhdm, index, es, physicalBase, kernelEnd, rsp) == Done(a)
    requires SaneBoot(hhdm, PAGE * PageFrame(l, index), rsp, es, physicalBase, kernelEnd)
    requires Expected(hhdm, PAGE * PageFrame(l, index), rsp, es, physicalBase, kernelEnd, x) != Fault
    ensures TableOf(PageOf(x)) in a.tables && a.tables[TableOf(PageOf(x))] < FRAMES
    ensures Load64(s.mem, PAGE * a.tables[TableOf(PageOf(x))] + 8 * PageOf(x).i1)
         == if KernelPage(kernelEnd, x) then 7 + PAGE * ((physicalBase + (x - KERNEL_VMA)) / PAGE)
            else if FramebufferPage(hhdm, es, x) then 0x8000_0000_0000_000b + PAGE * ((x - hhdm) / PAGE)
            else 0x8000_0000_0000_0007 + PAGE * ((x - hhdm) / PAGE)
  {
    hide PageOf, Updated, FramebufferPage, StackPage, InitOps, Sound, InOrder, Owned, Total, Trusted, PageFrame,
         KernelPage, SaneBoot, Run, InitialSpace, Load64, Slot;
    Unfold(l, s, a);
    InitialSpacePages(l, a, hhdm, index, es, physicalBase, kernelEnd, rsp);
    InitialPages(hhdm, PAGE * PageFrame(l, index), rsp, es, physicalBase, kernelEnd, x);
    FramesFit(hhdm, PAGE * PageFrame(l, index), rsp, es, physicalBase, kernelEnd, x);
    TableFrames(l, s, a);
    LowestWord(s.mem, a.tables, a.pages, TableOf(PageOf(x)), PageOf(x).i1);
  }

  /** x lies in a page of a framebuffer entry, seen through the direct map. */
  lemma {:induction false} FramebufferPagesAre(hhdm: nat, es: seq<MemmapEntry>, x: nat)
    ensures FramebufferPage(hhdm, es, x) <==>
      exists e ::
        e in es && e.kind == Framebuffer
        && (hhdm + e.base) / 4096 <= x / 4096 < (hhdm + e.base) / 4096 + (e.length + 4095) / 4096
  {
    if FramebufferPage(hhdm, es, x) {
      var e, k: nat :| e in es && e.kind == Framebuffer && k < CeilDiv(e.length, PAGE)
                       && x / PAGE == BufferPage(hhdm, e.base, k);
      assert e in es;
    }
    if e :| e in es && e.kind == Framebuffer
            && (hhdm + e.base) / 4096 <= x / 4096 < (hhdm + e.base) / 4096 + (e.length + 4095) / 4096 {
      var k: nat := x / PAGE - (hhdm + e.base) / PAGE;
      assert e in es && k < CeilDiv(e.length, PAGE) && x / PAGE == BufferPage(hhdm, e.base, k);
    }
  }

  /** The same walk in plain numbers: the kernel image from 0xffff_ffff_8000_0000 up to the page of KERNEL_END, then
      the framebuffers, the sixteen pages of the stack and the PML4 behind the direct-map offset; all else faults. */
  lemma {:induction false} WhereAddressesGo(l: Layout, s: State, a: Space, hhdm: nat, index: nat, es: seq<MemmapEntry>,
                                            physicalBase: nat, kernelEnd: nat, rsp: nat, x: nat)
    requires Models(l, s, a) && index < Total(l.regions) && Canonical(x)
    requires InitialSpace(l, hhdm, index, es, physicalBase, kernelEnd, rsp) == Done(a)
    requires SaneBoot(hhdm, PAGE * PageFrame(l, index), rsp, es, physicalBase, kernelEnd)
    ensures a.tables[Pml4] < FRAMES
    ensures var walk := Walk(s.mem, a.tables[Pml4], PageOf(x));
      var kernel := 0xffff_ffff_8000_0000 <= x && x / 4096 <= kernelEnd / 4096;
      var buffer := exists e ::
        e in es && e.kind == Framebuffer
        && (hhdm + e.base) / 4096 <= x / 4096 < (hhdm + e.base) / 4096 + (e.length + 4095) / 4096;
      var other := rsp / 4096 - 15 <= x / 4096 <= rsp / 4096 || x / 4096 == hhdm / 4096 + PageFrame(l, index);
      && (kernel ==> walk == Mapped((physicalBase + (x - 0xffff_ffff_8000_0000)) / 4096, true, false, false, false))
      && (!kernel && hhdm <= x && buffer ==> walk == Mapped((x - hhdm) / 4096, true, false, true, true))
      && (!kernel && hhdm <= x && !buffer && other ==> walk == Mapped((x - hhdm) / 4096, true, false, true, false))
      && (!kernel && (x < hhdm || (!buffer && !other)) ==> walk == Fault)
  {
    hide Walk, PageOf, FramebufferPage, Sound, InOrder, Owned, Tree, Total, Trusted, PageFrame, SaneBoot,
         InitialSpace;
    Unfold(l, s, a);
    InitialWalk(l, s, a, hhdm, index, es, physicalBase, kernelEnd, rsp, x);
    FramebufferPagesAre(hhdm, es, x);
    AddPages(hhdm, PageFrame(l, index));
  }
}
