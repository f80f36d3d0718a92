/** The order in which kmain brings memory up, and what holds once both steps are done. */
module Boot {
  import opened MachineInts
  import opened PhysicalMemory
  import opened Regions
  import opened BootMap
  import opened FrameAllocation
  import opened BootRuns
  import opened Pmem
  import opened PageTables
  import opened AbstractPaging
  import PagingOverMemory
  import opened Vm
  import opened InitialMappings
  import opened InitialTranslation

  /** The direct map reaches all usable memory without wrapping. */
  ghost predicate DirectMapped(hhdm: nat, us: seq<MemmapEntry>) {
    forall i :: 0 <= i < |us| ==> hhdm + us[i].base + us[i].length < TWO_64
  }

  lemma {:induction false} LayoutRoomy(us: seq<MemmapEntry>)
    requires Supported(us) && FrameCount(us) >= 2
    ensures (forall i :: 0 <= i < |us| ==> LimineEntry(us[i])) && Roomy(BootLayout(us))
  {
    EntriesOf(us);
    BootLayoutSound(us);
  }

  /** The frames that the tables of initialize_paging take are distinct and lie below 2^40. */
  ghost predicate TablesTrusted(us: seq<MemmapEntry>, hhdm: nat, es: seq<MemmapEntry>, physicalBase: nat,
                                kernelEnd: nat, rsp: nat)
    requires Supported(us) && FrameCount(us) >= 2
  {
    LayoutRoomy(us);
    Trusted(BootLayout(us), InitialDemand(BootLayout(us), hhdm, 0, es, physicalBase, kernelEnd, rsp))
  }

  lemma {:induction false} SaneOffset(hhdm: nat, rsp: nat, es: seq<MemmapEntry>, physicalBase: nat, kernelEnd: nat)
    requires SaneBoot(hhdm, 0, rsp, es, physicalBase, kernelEnd)
    ensures 0 < hhdm < TWO_64 && kernelEnd + PAGE < TWO_64
  {
  }

  lemma {:induction false} SmallFrameCount(us: seq<MemmapEntry>)
    requires Supported(us)
    ensures FrameCount(us) / 2 < TWO_32
  {
  }

  lemma {:induction false} BootSucceeds(es: seq<MemmapEntry>, hhdm: nat)
    requires |es| <= MAX_REGIONS && Supported(UsableEntries(es)) && 0 < hhdm && DirectMapped(hhdm, UsableEntries(es))
    ensures LimineUsable(UsableEntries(es)) && BootOutcome(es, hhdm) == Done(())
    ensures FrameCount(UsableEntries(es)) / 2 < TWO_32
  {
    hide LargeCount, FrameCount, TrimmedRegions, BitmapHome, LimineUsable;
    var us := UsableEntries(es);
    EntriesOf(us);
    LimineOf(us);
    HomeIsZero(us, FrameCount(us) / 2);
    HomeIsLastLarge(us, FrameCount(us) / 2, 0);
    SmallFrameCount(us);
    NoWrap(BootLayout(us).bitmap + hhdm);
  }

  lemma {:induction false} SaneWithPml4(us: seq<MemmapEntry>, hhdm: nat, rsp: nat, es: seq<MemmapEntry>,
                                        physicalBase: nat, kernelEnd: nat)
    requires Supported(us) && (forall i :: 0 <= i < |us| ==> LimineEntry(us[i])) && Sound(BootLayout(us))
    requires DirectMapped(hhdm, us) && SaneBoot(hhdm, 0, rsp, es, physicalBase, kernelEnd)
    ensures var l := BootLayout(us);
      0 < Total(l.regions) ==> SaneBoot(hhdm, PAGE * PageFrame(l, 0), rsp, es, physicalBase, kernelEnd)
  {
    hide Total, BootLayout, SafePage, Sound, Supported, PageFrame;
    if 0 < Total(BootLayout(us).regions) {
      PageFrameSafe(BootLayout(us), 0);
      SafePageInEntry(us, PAGE * PageFrame(BootLayout(us), 0));
    }
  }

  lemma {:induction false} Consumed(l: Layout, s: PagingOverMemory.State, a: Space, hhdm: nat, es: seq<MemmapEntry>,
                                    physicalBase: nat, kernelEnd: nat, rsp: nat)
    requires PagingOverMemory.Models(l, s, a)
    requires InitialSpace(l, hhdm, 0, es, physicalBase, kernelEnd, rsp) == Done(a)
    ensures 0 < Total(l.regions) && s.index == InitialDemand(l, hhdm, 0, es, physicalBase, kernelEnd, rsp)
  {
    hide PagingOverMemory.Models, PageFrame, Total, Run, InitOps, NodesOf, PagesOf, Sound, Trusted;
    PagingOverMemory.Unfold(l, s, a);
    InitialFrames(l, hhdm, 0, es, physicalBase, kernelEnd, rsp);
  }

  /** Brings up physical and then virtual memory, where no two frames among those the tables take are the same. On
      success every canonical address translates as InitialTranslation.InitialWalk says, the tables fill exactly
      the first frames and the allocator continues after them; the only way to halt is to run out of frames. */
  method BringUpMemory(memory: array<bv8>, es: seq<MemmapEntry>, hhdm: nat, physicalBase: nat, kernelEnd: nat, rsp: nat)
    returns (r: Outcome<AddressSpace>)
    requires memory.Length == PHYS_SIZE && |es| <= MAX_REGIONS
    requires Supported(UsableEntries(es)) && FrameCount(UsableEntries(es)) >= 2
    requires DirectMapped(hhdm, UsableEntries(es)) && SaneBoot(hhdm, 0, rsp, es, physicalBase, kernelEnd)
    requires forall e :: e in es ==> e.length + PAGE <= TWO_64
    requires TablesTrusted(UsableEntries(es), hhdm, es, physicalBase, kernelEnd, rsp)
    modifies memory
    ensures Roomy(BootLayout(UsableEntries(es)))
    ensures r.Halt? <==>
      InitialSpace(BootLayout(UsableEntries(es)), hhdm, 0, es, physicalBase, kernelEnd, rsp).Halt?
    ensures r.Done? ==> fresh(r.value) && fresh(r.value.pmem) && r.value.pmem.mem == memory && r.value.Valid()
    ensures r.Done? ==> var l := BootLayout(UsableEntries(es));
      && r.value.pmem.LayoutNow() == l && 0 < Total(l.regions) && r.value.pml4Addr == PAGE * PageFrame(l, 0)
      && r.value.space == InitialSpace(l, hhdm, 0, es, physicalBase, kernelEnd, rsp).value
      && r.value.pmem.index == InitialDemand(l, hhdm, 0, es, physicalBase, kernelEnd, rsp)
    ensures r.Done? ==> forall x: nat :: Canonical(x) ==>
      Walk(memory[..], r.value.pml4Addr / PAGE, PageOf(x))
      == Expected(hhdm, r.value.pml4Addr, rsp, es, physicalBase, kernelEnd, x)
  {
    hide Walk, PageOf, Expected, PagingOverMemory.Models, InOrder, BootLayout, V2p, P2v, Fill, LargeCount, Trusted,
         Supported, PageFrame, Total, FrameCount, Run, SaneBoot, InitialSpace, InitialDemand, Sound, LimineUsable,
         DirectMapped;
    ghost var us := UsableEntries(es);
    LayoutRoomy(us);
    ghost var l := BootLayout(us);
    InBounds(l);
    SaneOffset(hhdm, rsp, es, physicalBase, kernelEnd);
    BootSucceeds(es, hhdm);
    var pmem := new FrameAllocator(memory);
    var done := pmem.InitializeMemmap(es, hhdm);
    BitmapFillInOrder(l, old(memory[..]));
    var vm := new AddressSpace(pmem);
    done := vm.InitializePaging(es, physicalBase, kernelEnd, rsp);
    if done.Halt? {
      return Halt(done.site);
    }
    Consumed(l, vm.StateNow(), vm.space, hhdm, es, physicalBase, kernelEnd, rsp);
    forall x: nat | Canonical(x)
      ensures Walk(memory[..], vm.pml4Addr / PAGE, PageOf(x))
           == Expected(hhdm, vm.pml4Addr, rsp, es, physicalBase, kernelEnd, x)
    {
      SaneWithPml4(us, hhdm, rsp, es, physicalBase, kernelEnd);
      InitialWalk(l, vm.StateNow(), vm.space, hhdm, 0, es, physicalBase, kernelEnd, rsp, x);
    }
    return Done(vm);
  }

  lemma {:induction false} DemandDecides(l: Layout, hhdm: nat, es: seq<MemmapEntry>, physicalBase: nat, kernelEnd: nat,
                                         rsp: nat)
    requires Sound(l) && 0 < Total(l.regions)
    ensures InitialSpace(l, hhdm, 0, es, physicalBase, kernelEnd, rsp).Done?
       <==> InitialDemand(l, hhdm, 0, es, physicalBase, kernelEnd, rsp) <= Total(l.regions)
  {
    hide Sound, PageFrame, Total, Run, InitOps, NodesOf, PagesOf;
    InitialFrames(l, hhdm, 0, es, physicalBase, kernelEnd, rsp);
  }

  /** On the 8 GiB machine bring-up meets its conditions and succeeds as long as three tables for every page of the
      kernel image, the framebuffers and the stack fit into the frames that are handed out only once. */
  lemma {:induction false} EightGiBComesUp(es: seq<MemmapEntry>, hhdm: nat, physicalBase: nat, kernelEnd: nat, rsp: nat)
    requires UsableEntries(es) == EightGiB()
    requires 1 + 3 * (1 + STACK_PAGES + |FramebufferOps(hhdm, es)| + KernelPages(kernelEnd)) <= 0x1B_FD00
    ensures Supported(UsableEntries(es)) && FrameCount(UsableEntries(es)) >= 2
    ensures TablesTrusted(UsableEntries(es), hhdm, es, physicalBase, kernelEnd, rsp)
    ensures Roomy(BootLayout(EightGiB()))
    ensures InitialSpace(BootLayout(EightGiB()), hhdm, 0, es, physicalBase, kernelEnd, rsp).Done?
  {
    hide Supported, FrameCount, Roomy, BootLayout, Trusted, InitialDemand, FramebufferOps, KernelPages, Total, BootRun,
         InitialSpace;
    var m: Memory := seq(PHYS_SIZE, _ => 0);
    EightGiBRuns(m, []);
    LayoutRoomy(EightGiB());
    var l := BootLayout(EightGiB());
    DemandBound(l, hhdm, 0, es, physicalBase, kernelEnd, rsp);
    TrustedBelow(l, 0x1B_FD00, InitialDemand(l, hhdm, 0, es, physicalBase, kernelEnd, rsp));
    EightGiBOffsets(0);
    DemandDecides(l, hhdm, es, physicalBase, kernelEnd, rsp);
  }
}
