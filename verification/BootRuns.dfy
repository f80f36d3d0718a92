/** Runs of frame_alloc from the state that initialize_memmap leaves behind. */
module BootRuns {
  import opened MachineInts
  import opened PhysicalMemory
  import opened Regions
  import opened Bitmap
  import opened BootMap
  import opened FrameAllocation

  lemma {:induction false} EntriesOf(us: seq<MemmapEntry>)
    requires Supported(us)
    ensures forall i :: 0 <= i < |us| ==> LimineEntry(us[i])
  {
  }

  lemma {:induction false} InBounds(l: Layout)
    requires Sound(l)
    ensures Placed(l) && l.bitmap + l.bitmapLength <= PHYS_SIZE
  {
  }

  /** Memory once the bitmap is filled. */
  function BootMemory(us: seq<MemmapEntry>, m: Memory): Memory
    requires Supported(us)
  {
    EntriesOf(us);
    BootLayoutSound(us);
    InBounds(BootLayout(us));
    Fill(m, BootLayout(us).bitmap, BootLayout(us).bitmapLength, 0x88)
  }

  /** The calls zs of frame_alloc on a machine with usable entries us and boot-time memory m. */
  function BootRun(us: seq<MemmapEntry>, m: Memory, zs: seq<bool>): Outcome<(seq<nat>, Memory, nat)>
    requires Supported(us)
  {
    EntriesOf(us);
    BootLayoutSound(us);
    AllocRun(BootLayout(us), BootMemory(us, m), 0, zs)
  }

  /** A page inside a usable entry that shares no byte with the bitmap. */
  ghost predicate BootPage(us: seq<MemmapEntry>, a: nat)
    requires forall i :: 0 <= i < |us| ==> LimineEntry(us[i])
  {
    var l := BootLayout(us);
    && a % PAGE == 0
    && (exists i :: 0 <= i < |us| && us[i].base <= a && a + PAGE <= us[i].base + us[i].length)
    && (a + PAGE <= l.bitmap || l.bitmap + l.bitmapLength <= a)
  }

  lemma {:induction false} SafePageInEntry(us: seq<MemmapEntry>, a: nat)
    requires Supported(us) && (forall i :: 0 <= i < |us| ==> LimineEntry(us[i])) && SafePage(BootLayout(us), a)
    ensures BootPage(us, a)
  {
    hide TrimmedRegion, LargeCount;
    var l := BootLayout(us);
    var r :| 0 <= r < |l.regions| && PageOfRegion(l.regions[r], a);
    TrimOneRegion(us[r], l.bitmapLength);
  }

  /** Over any run of frame_alloc after boot: exactly max_frames minus the bitmap pages of every large entry
      succeed; each address is a page of a usable memory-map entry, clear of the bitmap; and no address repeats if
      and only if no page handed out lies 2^20 pages or more into its region. */
  lemma {:induction false} BootAllocations(us: seq<MemmapEntry>, m: Memory, zs: seq<bool>)
    requires Supported(us) && FrameCount(us) >= 2
    ensures forall i :: 0 <= i < |us| ==> LimineEntry(us[i])
    ensures var l := BootLayout(us);
      var run := BootRun(us, m, zs);
      && (run.Done? <==>
           |zs| + LargeCount(us, l.bitmapLength) * CeilDiv(l.bitmapLength, PAGE) <= l.maxFrames)
      && (run.Done? ==> |run.value.0| == |zs|)
      && (run.Done? ==> forall k :: 0 <= k < |run.value.0| ==> BootPage(us, run.value.0[k]))
      && (run.Done? ==> (Distinct(run.value.0) <==> OffsetsSmall(l.regions, |zs|)))
  {
    hide AllocRun, Total, TrimmedRegions, LargeCount, CeilDiv, FrameCount, Sound, SafePage, BootPage, Distinct,
         OffsetsSmall, Supported;
    EntriesOf(us);
    BootLayoutSound(us);
    var l := BootLayout(us);
    BitmapFillInOrder(l, m);
    AllocRunSafe(l, BootMemory(us, m), zs);
    TrimConserves(us, l.bitmapLength);
    var run := BootRun(us, m, zs);
    if run.Done? {
      forall k | 0 <= k < |zs|
        ensures BootPage(us, run.value.0[k])
      {
        SafePageInEntry(us, run.value.0[k]);
      }
    }
  }

  lemma {:induction false} BitmapHalf(l: Layout)
    requires Sound(l)
    ensures l.bitmapLength <= l.maxFrames / 2
  {
  }

  /** After n calls from boot the first n nibbles of the bitmap, high before low in each byte, are 0 and the rest 8. */
  lemma {:induction false} BitmapAfterRun(us: seq<MemmapEntry>, m: Memory, zs: seq<bool>)
    requires Supported(us) && FrameCount(us) >= 2
    ensures forall i :: 0 <= i < |us| ==> LimineEntry(us[i])
    ensures var l := BootLayout(us);
      l.bitmap + l.bitmapLength <= PHYS_SIZE
    ensures BootRun(us, m, zs).Done? ==>
      var l := BootLayout(us);
      var m' := BootRun(us, m, zs).value.1;
      forall k :: 0 <= k < l.bitmapLength ==>
        m'[l.bitmap + k] == if 2 * k + 2 <= |zs| then 0x00 else if 2 * k + 1 == |zs| then 0x08 else 0x88
  {
    hide AllocRun, Total, TrimmedRegions, FrameCount, Sound, Supported, InOrder, FramesFrom, BitmapHome;
    EntriesOf(us);
    BootLayoutSound(us);
    var l := BootLayout(us);
    InBounds(l);
    BitmapHalf(l);
    BitmapFillInOrder(l, m);
    AllocRunSteps(l, BootMemory(us, m), 0, zs);
    var run := BootRun(us, m, zs);
    if run.Done? {
      BitmapBytes(l, run.value.1, |zs|);
    }
  }

  /** Some call of the run returns -1. */
  predicate ReturnsMinusOne(us: seq<MemmapEntry>, m: Memory, zs: seq<bool>)
    requires Supported(us)
  {
    BootRun(us, m, zs).Done? && MINUS_ONE in BootRun(us, m, zs).value.0
  }

  lemma {:induction false} TwoCalls(l: Layout, m: Memory)
    requires Placed(l) && l.maxFrames == 1
    ensures AllocRun(l, m, 0, [false]).Done? <==> FrameAlloc(l, m, 0, false).Done?
    ensures var first := FrameAlloc(l, m, 0, false);
      first.Done? && first.value.index == 1 ==>
        && AllocRun(l, m, 0, [false, false]).Done?
        && AllocRun(l, m, 0, [false, false]).value.0 == [first.value.addr, MINUS_ONE]
  {
    hide NextAvailable, WalkFrame, TakenAt;
    assert [false][1..] == [] && [false, false][1..] == [false];
  }

  lemma {:induction false} OnlyFrame(l: Layout, m: Memory)
    requires Sound(l) && Total(l.regions) == l.maxFrames == 1
    ensures FrameAlloc(l, m, 0, false)
         == if Available(m, l.bitmap, 0) then Done(Allocation(PAGE * PageFrame(l, 0), Taken(l, m, 0, false), 1))
            else Halt(ScanExhausted)
  {
    hide RawWalk, Total, WalkFrame, PageFrame, Nibble, PutNibble, SafePage, WellFormedRegions;
    if Available(m, l.bitmap, 0) {
      assert NextAvailable(m, l, 0) == 0;
    } else {
      assert NextAvailable(m, l, 0) == 1;
    }
  }

  lemma {:induction false} LimineOf(us: seq<MemmapEntry>)
    requires Supported(us)
    ensures LimineUsable(us) && LargeCount(us, FrameCount(us) / 2) > 0
  {
  }

  /** With a single frame the bitmap is empty: whether that frame can be had depends on the byte that happens to
      lie at the bitmap's address, and after it frame_alloc returns -1. */
  lemma {:induction false} SingleFrame(us: seq<MemmapEntry>, m: Memory)
    requires Supported(us) && FrameCount(us) == 1
    ensures forall i :: 0 <= i < |us| ==> LimineEntry(us[i])
    ensures BootLayout(us).bitmap < PHYS_SIZE
    ensures BootRun(us, m, [false]).Done? <==> Available(m, BootLayout(us).bitmap, 0)
    ensures Available(m, BootLayout(us).bitmap, 0) ==>
      && BootRun(us, m, [false, false]).Done?
      && |BootRun(us, m, [false, false]).value.0| == 2
      && BootPage(us, BootRun(us, m, [false, false]).value.0[0])
      && BootRun(us, m, [false, false]).value.0[1] == MINUS_ONE
  {
    hide Total, TrimmedRegions, LargeCount, FrameCount, BitmapHome, PageFrame, Available, SafePage, BootPage,
         Supported, AllocRun, FrameAlloc, Taken;
    EntriesOf(us);
    BootLayoutSound(us);
    var l := BootLayout(us);
    InBounds(l);
    LimineOf(us);
    TotalBelowMaxFrames(us);
    assert BootMemory(us, m) == m;
    OnlyFrame(l, m);
    TwoCalls(l, m);
    if Available(m, l.bitmap, 0) {
      PageFrameSafe(l, 0);
      SafePageInEntry(us, PAGE * PageFrame(l, 0));
    }
  }

  lemma {:induction false} StrayAvailable(m: Memory, base: nat)
    requires base < PHYS_SIZE && m[base] == 0x88
    ensures Available(m, base, 0)
  {
  }

  lemma {:induction false} NoPageIsMinusOne(us: seq<MemmapEntry>)
    requires Supported(us) && (forall i :: 0 <= i < |us| ==> LimineEntry(us[i]))
    ensures forall a: nat :: BootPage(us, a) ==> a != MINUS_ONE
  {
    hide BootLayout;
  }

  lemma {:induction false} NoFrameAtAll(us: seq<MemmapEntry>, m: Memory)
    requires Supported(us) && FrameCount(us) == 0
    ensures BootRun(us, m, [false]).Done? && BootRun(us, m, [false]).value.0 == [MINUS_ONE]
  {
    hide Supported, FrameCount, TrimmedRegions, BitmapHome;
    EntriesOf(us);
    BootLayoutSound(us);
    assert [false][1..] == [];
  }

  /** frame_alloc can return -1 after boot, for some contents of memory and some run, if and only if the machine
      has fewer than two usable frames. */
  lemma {:induction false} MinusOneReachable(us: seq<MemmapEntry>)
    requires Supported(us)
    ensures (exists m: Memory, zs: seq<bool> :: ReturnsMinusOne(us, m, zs)) <==> FrameCount(us) < 2
  {
    hide FrameCount, BootRun, Supported, BootLayout, BootPage, FreeBytes;
    EntriesOf(us);
    if FrameCount(us) >= 2 {
      forall m: Memory, zs: seq<bool>
        ensures !ReturnsMinusOne(us, m, zs)
      {
        BootAllocations(us, m, zs);
        NoPageIsMinusOne(us);
      }
    } else if FrameCount(us) == 1 {
      var m: Memory := seq(PHYS_SIZE, _ => 0x88);
      SingleFrame(us, m);
      assert Available(m, BootLayout(us).bitmap, 0) by {
        StrayAvailable(m, BootLayout(us).bitmap);
      }
      assert ReturnsMinusOne(us, m, [false, false]);
    } else {
      var m: Memory := seq(PHYS_SIZE, _ => 0);
      NoFrameAtAll(us, m);
      assert ReturnsMinusOne(us, m, [false]);
    }
  }

  /** A machine with one usable entry. */
  function OneEntry(base: nat, length: nat): seq<MemmapEntry> {
    [MemmapEntry(base, length, Usable)]
  }

  lemma {:induction false} OneEntryLayout(base: nat, length: nat)
    requires LimineEntry(MemmapEntry(base, length, Usable))
    ensures var us := OneEntry(base, length);
      && FrameCount(us) == length / PAGE && LargeCount(us, FrameCount(us) / 2) == 1
      && TrimmedRegions(us, FrameCount(us) / 2) == [TrimmedRegion(us[0], FrameCount(us) / 2)]
      && BitmapHome(us, FrameCount(us) / 2, 0) == base
      && Total([TrimmedRegion(us[0], FrameCount(us) / 2)]) == TrimmedRegion(us[0], FrameCount(us) / 2).pages
  {
    hide TrimmedRegion;
    var us := OneEntry(base, length);
    assert us[1..] == [];
    assert FreeBytes(us) == length;
    assert length >= length / PAGE / 2;
    assert [TrimmedRegion(us[0], FrameCount(us) / 2)][1..] == [];
  }

  /** The smallest case: one usable frame, a memory full of 0x88, two calls, and the second returns -1. */
  lemma {:induction false} OneFrameMachine(m: Memory)
    requires m[0x1000] == 0x88
    ensures Supported(OneEntry(0x1000, 4096)) && FrameCount(OneEntry(0x1000, 4096)) == 1
    ensures BootRun(OneEntry(0x1000, 4096), m, [false, false]).Done?
         && BootRun(OneEntry(0x1000, 4096), m, [false, false]).value.0 == [0x1000, 0xffff_ffff_ffff_ffff]
  {
    hide TrimmedRegions, LargeCount, BitmapHome, Total, BootRun, FrameCount, GetFlags;
    var us := OneEntry(0x1000, 4096);
    OneEntryLayout(0x1000, 4096);
    SingleFrame(us, m);
    StrayAvailable(m, 0x1000);
    var addrs := BootRun(us, m, [false, false]).value.0;
    assert addrs[0] == 0x1000;
    assert addrs == [addrs[0], addrs[1]];
  }

  lemma {:induction false} StrayByteKept(l: Layout, m: Memory, j: nat, zeroed: bool)
    requires l == Layout([Region(0x2000, 0x4000, 2)], 3, 0x1000, 1)
    requires Sound(l) && Total(l.regions) == 2 && j < 2
    ensures Taken(l, m, j, zeroed)[0x1001] == m[0x1001]
  {
    hide Total, Taken, RawWalk, GetFlags, SetFlags;
    TakenFootprint(l, m, j, zeroed);
    PageFrameSafe(l, j);
  }

  lemma {:induction false} OnlyTwoSites(l: Layout, m: Memory, index: nat, zeroed: bool)
    requires Placed(l)
    ensures var r := FrameAlloc(l, m, index, zeroed); r.Halt? ==> r.site == ScanExhausted || r.site == RegionsExhausted
  {
    hide NextAvailable, WalkFrame, TakenAt;
  }

  /** The call after the last frame, where that frame's nibble lies behind the bitmap in a page of no region. */
  lemma {:induction false} ThirdCall(l: Layout, m: Memory, zs: seq<bool>)
    requires l == Layout([Region(0x2000, 0x4000, 2)], 3, 0x1000, 1)
    requires Roomy(l) && InOrder(l, m, 0) && Total(l.regions) == 2 && |zs| == 3
    ensures AllocRun(l, m, 0, zs) == Halt(if Available(m, 0x1001, 0) then RegionsExhausted else ScanExhausted)
  {
    hide Total, FrameAlloc, Taken, GetFlags, SetFlags, RawWalk, PageFrame, InOrder, Sound;
    AllocInOrder(l, m, 0, zs[0]);
    var m1 := Taken(l, m, 0, zs[0]);
    AllocInOrder(l, m1, 1, zs[1]);
    var m2 := Taken(l, m1, 1, zs[1]);
    AllocInOrder(l, m2, 2, zs[2]);
    LastCallHalts(l, m2, zs[2]);
    StrayByteKept(l, m, 0, zs[0]);
    StrayByteKept(l, m1, 1, zs[1]);
    OnlyTwoSites(l, m2, 2, zs[2]);
    assert zs[1..][0] == zs[1] && zs[1..][1..] == zs[2..] && zs[2..][0] == zs[2];
    assert Available(m2, 0x1000, 2) <==> Available(m, 0x1001, 0);
    assert AllocRun(l, m2, 2, zs[2..]) == Halt(FrameAlloc(l, m2, 2, zs[2]).site);
  }

  /** Three usable frames, of which one goes to a bitmap of one byte: the third call stops in the scan or in the
      region walk, as the byte behind the bitmap has it. */
  lemma {:induction false} ThreeFrameMachine(m: Memory, zs: seq<bool>)
    requires |zs| == 3
    ensures Supported(OneEntry(0x1000, 0x3000)) && FrameCount(OneEntry(0x1000, 0x3000)) == 3
    ensures BootLayout(OneEntry(0x1000, 0x3000)) == Layout([Region(0x2000, 0x4000, 2)], 3, 0x1000, 1)
    ensures BootRun(OneEntry(0x1000, 0x3000), m, zs)
         == Halt(if Available(m, 0x1001, 0) then RegionsExhausted else ScanExhausted)
  {
    hide TrimmedRegions, LargeCount, BitmapHome, Total, FrameCount, FrameAlloc, Taken, GetFlags, SetFlags, RawWalk,
         PageFrame, AllocRun, InOrder;
    var us := OneEntry(0x1000, 0x3000);
    OneEntryLayout(0x1000, 0x3000);
    var l := BootLayout(us);
    BootLayoutSound(us);
    BitmapFillInOrder(l, m);
    ThirdCall(l, BootMemory(us, m), zs);
    assert BootMemory(us, m)[0x1001] == m[0x1001];
  }

  /** Usable memory of the 8 GiB machine the repository runs on: 3 GiB below the device hole, 5 GiB above. */
  function EightGiB(): seq<MemmapEntry> {
    [MemmapEntry(0x10_0000, 0xBFE0_0000, Usable), MemmapEntry(0x1_0000_0000, 0x1_4000_0000, Usable)]
  }

  lemma {:induction false} EightGiBLayout()
    ensures LimineUsable(EightGiB()) && FrameCount(EightGiB()) == 0x1F_FE00
    ensures LargeCount(EightGiB(), 0xF_FF00) == 2
    ensures TrimmedRegions(EightGiB(), 0xF_FF00)
         == [Region(0x20_0000, 0xBFF0_0000, 0xB_FD00), Region(0x1_0010_0000, 0x2_4000_0000, 0x13_FF00)]
  {
    var us := EightGiB();
    var high := us[1..];
    assert high == [MemmapEntry(0x1_0000_0000, 0x1_4000_0000, Usable)] && high[1..] == [];
    assert FreeBytes(high) == 0x1_4000_0000;
    assert LargeCount(high, 0xF_FF00) == 1;
    assert TrimmedRegion(us[0], 0xF_FF00) == Region(0x20_0000, 0xBFF0_0000, 0xB_FD00);
    assert TrimmedRegion(us[1], 0xF_FF00) == Region(0x1_0010_0000, 0x2_4000_0000, 0x13_FF00);
  }

  lemma {:induction false} LowFrames(l: Layout, n: nat)
    requires Sound(l) && OffsetsSmall(l.regions, n)
    requires forall r :: 0 <= r < |l.regions| ==> l.regions[r].end <= 0x100_0000_0000
    ensures Trusted(l, n)
  {
    hide Total, OffsetsSmall, PageFrame;
    forall j: nat | j < n && j < Total(l.regions)
      ensures PageFrame(l, j) < 0x1000_0000
    {
      PageFrameSafe(l, j);
    }
  }

  lemma {:induction false} TwoRegions(a: Region, b: Region, n: nat)
    requires a.pages <= SMALL < b.pages && n <= a.pages + b.pages
    ensures Total([a, b]) == a.pages + b.pages
    ensures OffsetsSmall([a, b], n) <==> n <= a.pages + SMALL
  {
    assert [a, b][1..] == [b] && [b][1..] == [];
    assert Total([b]) == b.pages;
    assert FlatBase([a, b], 0) == 0 && FlatBase([b], 0) == 0 && FlatBase([a, b], 1) == a.pages;
    if n > a.pages + SMALL {
      assert RegionOf([a, b], a.pages + SMALL) == 1;
      assert !SmallOffset([a, b], a.pages + SMALL);
    }
  }

  lemma {:induction false} EightGiBOffsets(n: nat)
    requires n <= 0x1F_FC00
    ensures forall i :: 0 <= i < |EightGiB()| ==> LimineEntry(EightGiB()[i])
    ensures Total(BootLayout(EightGiB()).regions) == 0x1F_FC00
    ensures OffsetsSmall(BootLayout(EightGiB()).regions, n) <==> n <= 0x1B_FD00
  {
    hide TrimmedRegions, LargeCount, FrameCount, Total, BitmapHome, OffsetsSmall;
    EightGiBLayout();
    var rs := BootLayout(EightGiB()).regions;
    assert rs == [rs[0], rs[1]];
    TwoRegions(rs[0], rs[1], n);
  }

  lemma {:induction false} EightGiBSupported()
    ensures Supported(EightGiB()) && FrameCount(EightGiB()) == 0x1F_FE00
    ensures LargeCount(EightGiB(), 0xF_FF00) * CeilDiv(0xF_FF00, PAGE) == 0x200
    ensures forall i :: 0 <= i < |EightGiB()| ==> LimineEntry(EightGiB()[i])
    ensures var rs := BootLayout(EightGiB()).regions; forall r :: 0 <= r < |rs| ==> rs[r].end <= 0x100_0000_0000
  {
    hide TrimmedRegions, LargeCount, FrameCount, BitmapHome;
    EightGiBLayout();
  }

  /** There the upper region has more than 2^20 pages. The first 0x1B_FD00 frames, about 7 GiB, are distinct and
      lie below 2^40; one call more and an address has been handed out twice. */
  lemma {:induction false} EightGiBRuns(m: Memory, zs: seq<bool>)
    ensures Supported(EightGiB()) && FrameCount(EightGiB()) >= 2
    ensures BootRun(EightGiB(), m, zs).Done? <==> |zs| <= 0x1F_FC00
    ensures BootRun(EightGiB(), m, zs).Done? ==> (Distinct(BootRun(EightGiB(), m, zs).value.0) <==> |zs| <= 0x1B_FD00)
    ensures Sound(BootLayout(EightGiB())) && Trusted(BootLayout(EightGiB()), 0x1B_FD00)
  {
    hide TrimmedRegions, LargeCount, FrameCount, Total, BootRun, Distinct, OffsetsSmall, BootPage, Trusted, BitmapHome,
         EightGiB, Supported, CeilDiv, Sound;
    var us := EightGiB();
    EightGiBSupported();
    BootLayoutSound(us);
    BootAllocations(us, m, zs);
    EightGiBOffsets(0x1B_FD00);
    LowFrames(BootLayout(us), 0x1B_FD00);
    if |zs| <= 0x1F_FC00 {
      EightGiBOffsets(|zs|);
    }
  }
}
