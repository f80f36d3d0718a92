/** The map_page calls that initialize_paging makes, in order. */
module InitialMappings {
  import opened MachineInts
  import opened BootMap
  import opened Regions
  import opened FrameAllocation
  import opened PageTables
  import opened AbstractPaging

  const STACK_PAGES: nat := 16

  function Pml4Op(hhdm: nat, pml4: nat): Op {
    Map(P2v(hhdm, pml4), pml4, true, true, true, false)
  }

  function StackOp(hhdm: nat, rsp: nat, k: nat): Op {
    Map(PgRoundDown(U64(rsp - PAGE * k)), PgRoundDown(U64(rsp - hhdm - PAGE * k)), true, true, true, false)
  }

  function FramebufferOp(hhdm: nat, base: nat, k: nat): Op {
    Map(U64(base + hhdm + PAGE * k), U64(base + PAGE * k), false, true, true, true)
  }

  function KernelOp(physicalBase: nat, k: nat): Op {
    Map(KERNEL_VMA + PAGE * k, U64(physicalBase + PAGE * k), true, true, false, false)
  }

  function StackOps(hhdm: nat, rsp: nat, n: nat): (ops: seq<Op>)
    ensures |ops| == n && forall k :: 0 <= k < n ==> ops[k] == StackOp(hhdm, rsp, k)
  {
    if n == 0 then [] else StackOps(hhdm, rsp, n - 1) + [StackOp(hhdm, rsp, n - 1)]
  }

  function BufferOps(hhdm: nat, base: nat, n: nat): (ops: seq<Op>)
    ensures |ops| == n && forall k :: 0 <= k < n ==> ops[k] == FramebufferOp(hhdm, base, k)
  {
    if n == 0 then [] else BufferOps(hhdm, base, n - 1) + [FramebufferOp(hhdm, base, n - 1)]
  }

  function FramebufferOps(hhdm: nat, es: seq<MemmapEntry>): seq<Op> {
    if es == [] then []
    else (if es[0].kind == Framebuffer then BufferOps(hhdm, es[0].base, CeilDiv(es[0].length, PAGE)) else [])
         + FramebufferOps(hhdm, es[1..])
  }

  function KernelOps(physicalBase: nat, n: nat): (ops: seq<Op>)
    ensures |ops| == n && forall k :: 0 <= k < n ==> ops[k] == KernelOp(physicalBase, k)
  {
    if n == 0 then [] else KernelOps(physicalBase, n - 1) + [KernelOp(physicalBase, n - 1)]
  }

  /** Pages from KERNEL_VMA up to and including the one at KERNEL_END. */
  function KernelPages(kernelEnd: nat): nat {
    if kernelEnd < KERNEL_VMA then 0 else (kernelEnd - KERNEL_VMA) / PAGE + 1
  }

  function InitOps(hhdm: nat, pml4: nat, rsp: nat, es: seq<MemmapEntry>, physicalBase: nat, kernelEnd: nat): seq<Op> {
    [Pml4Op(hhdm, pml4)] + StackOps(hhdm, rsp, STACK_PAGES) + FramebufferOps(hhdm, es)
    + KernelOps(physicalBase, KernelPages(kernelEnd))
  }

  /** The address space initialize_paging builds when `index` frames have been handed out before. */
  function InitialSpace(l: Layout, hhdm: nat, index: nat, es: seq<MemmapEntry>, physicalBase: nat, kernelEnd: nat,
                        rsp: nat): Outcome<Space>
    requires Sound(l)
  {
    if index >= Total(l.regions) then Halt(RegionsExhausted)
    else
      var f := PageFrame(l, index);
      Run(l, Space(map[Pml4 := f], map[], index + 1, {}), InitOps(hhdm, PAGE * f, rsp, es, physicalBase, kernelEnd))
  }

  /** The frames it asks for, that of the PML4 included. */
  function InitialDemand(l: Layout, hhdm: nat, index: nat, es: seq<MemmapEntry>, physicalBase: nat, kernelEnd: nat,
                         rsp: nat): nat
    requires Sound(l)
  {
    if index >= Total(l.regions) then 0
    else |NodesOf(PagesOf(InitOps(hhdm, PAGE * PageFrame(l, index), rsp, es, physicalBase, kernelEnd)))|
  }

  lemma {:induction false} FramebufferElements(hhdm: nat, es: seq<MemmapEntry>, op: Op)
    ensures op in FramebufferOps(hhdm, es) <==>
      exists e, k: nat :: e in es && e.kind == Framebuffer && k < CeilDiv(e.length, PAGE)
                       && op == FramebufferOp(hhdm, e.base, k)
  {
    hide CeilDiv, FramebufferOp;
    if es == [] {
    } else {
      var rest := es[1..];
      FramebufferElements(hhdm, rest, op);
      var head := BufferOps(hhdm, es[0].base, CeilDiv(es[0].length, PAGE));
      if op in FramebufferOps(hhdm, es) {
        if es[0].kind == Framebuffer && op in head {
          var k: nat :| k < |head| && head[k] == op;
          assert es[0] in es && op == FramebufferOp(hhdm, es[0].base, k);
        } else {
          var e, k: nat :| e in rest && e.kind == Framebuffer && k < CeilDiv(e.length, PAGE)
                           && op == FramebufferOp(hhdm, e.base, k);
          assert e in es;
        }
      }
      if e, k: nat :| e in es && e.kind == Framebuffer && k < CeilDiv(e.length, PAGE)
                      && op == FramebufferOp(hhdm, e.base, k) {
        if e == es[0] {
          assert head[k] == op;
        } else {
          assert e in rest;
        }
      }
    }
  }

  lemma {:induction false} AllRequestsAreMaps(hhdm: nat, pml4: nat, rsp: nat, es: seq<MemmapEntry>, physicalBase: nat,
                                              kernelEnd: nat)
    ensures forall op :: op in InitOps(hhdm, pml4, rsp, es, physicalBase, kernelEnd) ==> op.Map?
  {
    hide StackOps, FramebufferOps, KernelOps, KernelPages, CeilDiv;
    forall op | op in FramebufferOps(hhdm, es)
      ensures op.Map?
    {
      FramebufferElements(hhdm, es, op);
    }
  }

  lemma {:induction false} EmptyNodes()
    ensures NodesOf({}) == {Pml4}
  {
  }

  lemma {:induction false} OpNodes(op: Op)
    ensures |NodesOf(PagesOf([op])) - {Pml4}| <= 3
  {
    hide NodesOf, PageOf, LeafOf, PagesOf, Path;
    OneOp(op, map[]);
    if op.Map? {
      PathMissing(PageOf(op.vaddr), {Pml4});
    } else {
      NoPages({Pml4});
    }
  }

  lemma {:induction false} NodesBound(ops: seq<Op>)
    ensures Pml4 in NodesOf(PagesOf(ops)) && |NodesOf(PagesOf(ops))| <= 1 + 3 * |ops|
  {
    hide NodesOf, PageOf, LeafOf;
    if ops == [] {
      NoPages({Pml4});
      EmptyNodes();
    } else {
      NodesBound(ops[1..]);
      OpNodes(ops[0]);
      SplitOps(ops);
      var A, B := NodesOf(PagesOf([ops[0]])), NodesOf(PagesOf(ops[1..]));
      NodesOfUnion(PagesOf([ops[0]]), PagesOf(ops[1..]));
      assert A + B == (A - {Pml4}) + B;
      assert |(A - {Pml4}) + B| <= |A - {Pml4}| + |B|;
    }
  }

  /** Three tables a page, and the PML4, are always enough. */
  lemma {:induction false} DemandBound(l: Layout, hhdm: nat, index: nat, es: seq<MemmapEntry>, physicalBase: nat,
                                       kernelEnd: nat, rsp: nat)
    requires Sound(l)
    ensures InitialDemand(l, hhdm, index, es, physicalBase, kernelEnd, rsp)
         <= 1 + 3 * (1 + STACK_PAGES + |FramebufferOps(hhdm, es)| + KernelPages(kernelEnd))
  {
    hide Sound, Total, NodesOf, PagesOf, PageFrame, StackOps, FramebufferOps, KernelOps, KernelPages;
    if index < Total(l.regions) {
      NodesBound(InitOps(hhdm, PAGE * PageFrame(l, index), rsp, es, physicalBase, kernelEnd));
    }
  }
}
