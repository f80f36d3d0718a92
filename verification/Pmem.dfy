/** The physical frame allocator of pmem.c: its globals are the fields, updated in place. */
module Pmem {
  import opened MachineInts
  import opened PhysicalMemory
  import opened Regions
  import opened Bitmap
  import opened BootMap
  import opened FrameAllocation

  lemma {:induction false} ScanStep(m: Memory, l: Layout, i: nat)
    requires i <= l.maxFrames && Placed(l)
    ensures i == l.maxFrames || Nibble(m, l.bitmap, i) & AVAIL != 0 ==> NextAvailable(m, l, i) == i
    ensures i < l.maxFrames && Nibble(m, l.bitmap, i) & AVAIL == 0 ==>
              NextAvailable(m, l, i) == NextAvailable(m, l, i + 1)
  {
  }

  /** How initialisation ends, given the map and the direct-map offset. */
  ghost function BootOutcome(es: seq<MemmapEntry>, offset: nat): Outcome<()>
    requires LimineUsable(UsableEntries(es))
  {
    var us := UsableEntries(es);
    if |es| > MAX_REGIONS then Halt(TooManyRegions)
    else if LargeCount(us, FrameCount(us) / 2) == 0 then Halt(NoBitmapHome)
    else if P2v(offset, BootLayout(us).bitmap) == 0 then Halt(NoBitmapHome)
    else Done(())
  }

  lemma {:induction false} P2vIsWrap(hhdm: nat, paddr: nat)
    ensures P2v(hhdm, paddr) == U64(paddr + hhdm)
  {
  }

  /** One step of either pass: position i of the map and position k of its usable entries advance together. */
  lemma {:induction false} UsableStep(es: seq<MemmapEntry>, i: nat, us: seq<MemmapEntry>, k: nat)
    requires i < |es| && k <= |us| && us[k..] == UsableEntries(es[i..])
    requires us == UsableEntries(es)
    requires LimineUsable(us)
    ensures es[i].kind == Usable ==>
      && k < |us| && us[k] == es[i] && LimineEntry(es[i]) && us[k + 1..] == UsableEntries(es[i + 1..])
      && UsableEntries(es[i..]) == [es[i]] + UsableEntries(es[i + 1..])
      && FreeBytes(UsableEntries(es[i..])) == es[i].length + FreeBytes(UsableEntries(es[i + 1..]))
      && forall n, c :: BitmapHome(UsableEntries(es[i..]), n, c)
           == BitmapHome(UsableEntries(es[i + 1..]), n, if es[i].length >= n then es[i].base else c)
    ensures es[i].kind != Usable ==> us[k..] == UsableEntries(es[i + 1..])
  {
    assert es[i..][0] == es[i] && es[i..][1..] == es[i + 1..];
    if es[i].kind == Usable {
      assert us[k..][0] == us[k] && us[k..][1..] == us[k + 1..];
      assert ([es[i]] + UsableEntries(es[i + 1..]))[1..] == UsableEntries(es[i + 1..]);
    }
  }

  lemma {:induction false} HomeFits(us: seq<MemmapEntry>)
    requires LimineUsable(us) && LargeCount(us, FrameCount(us) / 2) > 0
    ensures BootLayout(us).bitmap + FrameCount(us) / 2 <= PHYS_SIZE
  {
    HomeIsLastLarge(us, FrameCount(us) / 2, 0);
  }

  lemma {:induction false} HomeIsZero(us: seq<MemmapEntry>, n: nat)
    requires LimineUsable(us)
    ensures BitmapHome(us, n, 0) == 0 <==> LargeCount(us, n) == 0
    ensures BitmapHome(us, n, 0) <= PHYS_SIZE
  {
    HomeIsLastLarge(us, n, 0);
  }

  lemma {:induction false} NothingLeft(es: seq<MemmapEntry>)
    ensures es[0..] == es && es[|es|..] == []
    ensures UsableEntries([]) == [] && FreeBytes([]) == 0
    ensures forall n, c :: BitmapHome([], n, c) == c
  {
  }

  lemma {:induction false} EntryRegionAsCoded(e: MemmapEntry)
    ensures EntryRegion(e) == Region(e.base, U64(e.base + e.length), e.length / PAGE)
  {
  }

  lemma {:induction false} TrimmedAsCoded(e: MemmapEntry, n: nat)
    requires LimineEntry(e)
    ensures EntryRegion(e).start == e.base
    ensures n <= e.length ==>
      var start := PgRoundUp(e.base + n);
      TrimmedRegion(e, n) == Region(start, EntryRegion(e).end, U64(EntryRegion(e).end - start) / PAGE)
    ensures e.length < n ==> TrimmedRegion(e, n) == EntryRegion(e)
  {
  }

  lemma {:induction false} DirectMapOffset(hhdm: nat, vaddr: nat, k: nat)
    requires V2p(hhdm, vaddr) + k < TWO_64
    ensures V2p(hhdm, U64(vaddr + k)) == V2p(hhdm, vaddr) + k
  {
    hide U64;
    WrapTwice(vaddr + k, 0 - hhdm);
    WrapTwice(vaddr - hhdm, k);
    NoWrap(V2p(hhdm, vaddr) + k);
  }

  lemma {:induction false} FillNothing(m: Memory, a: nat, c: bv8)
    requires a <= PHYS_SIZE
    ensures Fill(m, a, 0, c) == m
  {
  }

  lemma {:induction false} FillOneMore(m: Memory, a: nat, i: nat, c: bv8)
    requires a + i < PHYS_SIZE
    ensures Fill(m, a, i, c)[a + i := c] == Fill(m, a, i + 1, c)
  {
  }

  lemma {:induction false} FreeBytesBound(us: seq<MemmapEntry>)
    requires forall i :: 0 <= i < |us| ==> LimineEntry(us[i])
    ensures FreeBytes(us) <= PHYS_SIZE * |us|
  {
    if us == [] {
    } else {
      FreeBytesBound(us[1..]);
    }
  }

  lemma {:induction false} GetFlagsAsCoded(b: bv8, s: bv8)
    requires s == 0 || s == 4
    ensures GetFlags(b, s) == (b & (0xF << s)) >> s
  {
  }

  lemma {:induction false} PutNibbleAsCoded(m: Memory, base: nat, j: nat, flags: bv8)
    requires base + j / 2 < PHYS_SIZE
    ensures PutNibble(m, base, j, flags)
         == m[base + j / 2 := (m[base + j / 2] & !(0xF << Shift(j))) | (flags << Shift(j))]
  {
  }

  class FrameAllocator {
    const mem: array<bv8>
    const regionInfo: array<Region>
    var hhdmoff: nat
    var bitmapLength: nat
    var frameMap: nat
    var maxFrames: nat
    var initFreeSpace: nat
    var numRegions: nat
    var index: nat

    ghost predicate Shaped()
      reads this
    {
      mem.Length == PHYS_SIZE && regionInfo.Length == MAX_REGIONS && numRegions <= MAX_REGIONS && hhdmoff < TWO_64
    }

    /** Physical memory as a value. */
    ghost function Contents(): Memory
      requires mem.Length == PHYS_SIZE
      reads mem
    {
      mem[..]
    }

    ghost function LayoutNow(): Layout
      requires Shaped()
      reads this, regionInfo
    {
      Layout(regionInfo[..numRegions], maxFrames, V2p(hhdmoff, frameMap), bitmapLength)
    }

    ghost predicate Valid()
      reads this, regionInfo
    {
      Shaped() && Placed(LayoutNow())
    }

    /** Static storage: all zero, apart from the memory itself, which is arbitrary. */
    constructor (memory: array<bv8>)
      requires memory.Length == PHYS_SIZE
      ensures Shaped() && mem == memory && fresh(regionInfo)
      ensures hhdmoff == bitmapLength == frameMap == maxFrames == initFreeSpace == numRegions == index == 0
    {
      mem := memory;
      regionInfo := new Region[MAX_REGIONS](_ => Region(0, 0, 0));
      hhdmoff, bitmapLength, frameMap, maxFrames, initFreeSpace, numRegions, index := 0, 0, 0, 0, 0, 0, 0;
    }

    method Memset(vaddr: nat, c: bv8, n: nat)
      requires Shaped()
      requires V2p(hhdmoff, vaddr) + n <= PHYS_SIZE
      modifies mem
      ensures Contents() == Fill(old(Contents()), V2p(hhdmoff, vaddr), n, c)
    {
      hide Fill, V2p, U64;
      ghost var m := Contents();
      ghost var a := V2p(hhdmoff, vaddr);
      FillNothing(m, a, c);
      var i := 0;
      while i < n
        invariant i <= n
        invariant Contents() == Fill(m, a, i, c)
      {
        DirectMapOffset(hhdmoff, vaddr, i);
        mem[V2p(hhdmoff, U64(vaddr + i))] := c;
        FillOneMore(m, a, i, c);
        i := i + 1;
      }
    }

    method GetFrameFlags(frameNo: nat) returns (flags: bv8)
      requires Shaped()
      requires V2p(hhdmoff, frameMap) + frameNo / 2 < PHYS_SIZE
      ensures flags == Nibble(Contents(), V2p(hhdmoff, frameMap), frameNo)
      ensures var x := mem[V2p(hhdmoff, frameMap) + frameNo / 2] as nat;
        flags as nat == if frameNo % 2 == 0 then x / 16 else x % 16
    {
      hide GetFlags, Shift, V2p, U64;
      NibbleByValue(Contents(), V2p(hhdmoff, frameMap), frameNo);
      DirectMapOffset(hhdmoff, frameMap, frameNo / 2);
      var local := mem[V2p(hhdmoff, U64(frameMap + frameNo / 2))];
      GetFlagsAsCoded(local, Shift(frameNo));
      local := local & (0xF << Shift(frameNo));
      return local >> Shift(frameNo);
    }

    method SetFrameFlags(frameNo: nat, flags: bv8)
      requires Shaped()
      requires V2p(hhdmoff, frameMap) + frameNo / 2 < PHYS_SIZE
      modifies mem
      ensures Contents() == PutNibble(old(Contents()), V2p(hhdmoff, frameMap), frameNo, flags)
      ensures flags < 16 ==>
        var a := V2p(hhdmoff, frameMap) + frameNo / 2;
        var x := old(mem[a]) as nat;
        mem[a] as nat == if frameNo % 2 == 0 then 16 * flags as nat + x % 16 else x / 16 * 16 + flags as nat
    {
      hide PutNibble, Shift, V2p, U64;
      if flags < 16 {
        PutNibbleByValue(Contents(), V2p(hhdmoff, frameMap), frameNo, flags);
      }
      DirectMapOffset(hhdmoff, frameMap, frameNo / 2);
      var byte := V2p(hhdmoff, U64(frameMap + frameNo / 2));
      var local := mem[byte];
      PutNibbleAsCoded(Contents(), V2p(hhdmoff, frameMap), frameNo, flags);
      local := local & !(0xF << Shift(frameNo));
      local := local | (flags << Shift(frameNo));
      mem[byte] := local;
    }

    /** Reads the boot memory map into regions, counts frames, then places and fills the bitmap. */
    method InitializeMemmap(es: seq<MemmapEntry>, offset: nat) returns (r: Outcome<()>)
      requires Shaped() && frameMap == initFreeSpace == numRegions == index == 0 && offset < TWO_64
      requires LimineUsable(UsableEntries(es))
      requires FrameCount(UsableEntries(es)) / 2 < TWO_32
      modifies this, mem, regionInfo
      ensures Shaped() && index == 0 && hhdmoff == offset
      ensures r == BootOutcome(es, offset)
      ensures r.Done? ==>
        && LayoutNow() == BootLayout(UsableEntries(es))
        && LayoutNow().bitmap + bitmapLength <= PHYS_SIZE
        && Contents() == Fill(old(Contents()), LayoutNow().bitmap, bitmapLength, 0x88)
    {
      hhdmoff := offset;
      if !(|es| <= MAX_REGIONS) {
        return Halt(TooManyRegions);
      }
      ReadUsableEntries(es);
      r := LocateForBitmap(es);
      if r.Done? {
        HomeFits(UsableEntries(es));
        r := InitializeBitmap();
      }
    }

    /** First pass: one region per usable entry, and the frame count. */
    method ReadUsableEntries(es: seq<MemmapEntry>)
      requires Shaped() && initFreeSpace == 0 && |es| <= MAX_REGIONS
      requires LimineUsable(UsableEntries(es))
      modifies `initFreeSpace, `maxFrames, `numRegions, regionInfo
      ensures Shaped() && numRegions == |UsableEntries(es)|
      ensures maxFrames == FrameCount(UsableEntries(es))
      ensures forall k :: 0 <= k < numRegions ==> regionInfo[k] == EntryRegion(UsableEntries(es)[k])
    {
      hide EntryRegion, UsableEntries, FreeBytes, LimineEntry;
      ghost var us := UsableEntries(es);
      FreeBytesBound(us);
      NothingLeft(es);
      var regionIdx := 0;
      for i := 0 to |es|
        invariant numRegions <= MAX_REGIONS
        invariant regionIdx <= |us| && us[regionIdx..] == UsableEntries(es[i..])
        invariant initFreeSpace + FreeBytes(UsableEntries(es[i..])) == FreeBytes(us)
        invariant forall k :: 0 <= k < regionIdx ==> regionInfo[k] == EntryRegion(us[k])
      {
        var e := es[i];
        UsableStep(es, i, us, regionIdx);
        if e.kind == Usable {
          NoWrap(initFreeSpace + e.length);
          EntryRegionAsCoded(e);
          initFreeSpace := U64(initFreeSpace + e.length);
          regionInfo[regionIdx] := Region(e.base, U64(e.base + e.length), e.length / PAGE);
          regionIdx := regionIdx + 1;
        }
      }
      maxFrames := initFreeSpace / PAGE;
      numRegions := regionIdx;
    }

    /** Second pass. usableIdx counts usable entries exactly as the first pass numbered the regions. */
    method LocateForBitmap(es: seq<MemmapEntry>) returns (r: Outcome<()>)
      requires Shaped() && frameMap == 0
      requires LimineUsable(UsableEntries(es)) && numRegions == |UsableEntries(es)|
      requires maxFrames == FrameCount(UsableEntries(es))
      requires forall k :: 0 <= k < numRegions ==> regionInfo[k] == EntryRegion(UsableEntries(es)[k])
      modifies `bitmapLength, `frameMap, regionInfo
      ensures Shaped() && bitmapLength == maxFrames / 2
      ensures r == if LargeCount(UsableEntries(es), maxFrames / 2) == 0 then Halt(NoBitmapHome) else Done(())
      ensures r.Done? ==> LayoutNow() == BootLayout(UsableEntries(es))
      ensures r.Done? ==> frameMap == P2v(hhdmoff, LayoutNow().bitmap)
    {
      hide EntryRegion, TrimmedRegion, LargeCount, U64, FrameCount, V2p, P2v, PgRoundUp, UsableEntries, BitmapHome,
           TrimmedRegions, LimineEntry, LimineUsable, FreeBytes, CeilDiv;
      LimineEntries(UsableEntries(es));
      NothingLeft(es);
      HomeIsZero(UsableEntries(es), maxFrames / 2);
      ghost var us := UsableEntries(es);
      bitmapLength := maxFrames / 2;
      ghost var home := BitmapHome(us, bitmapLength, 0);
      var usableIdx := 0;
      for i := 0 to |es|
        invariant bitmapLength == maxFrames / 2
        invariant usableIdx <= |us| && us[usableIdx..] == UsableEntries(es[i..])
        invariant forall k :: 0 <= k < usableIdx ==> regionInfo[k] == TrimmedRegion(us[k], bitmapLength)
        invariant forall k :: usableIdx <= k < |us| ==> regionInfo[k] == EntryRegion(us[k])
        invariant home == BitmapHome(UsableEntries(es[i..]), bitmapLength, frameMap)
      {
        var e := es[i];
        UsableStep(es, i, us, usableIdx);
        if e.kind == Usable {
          TrimmedAsCoded(e, bitmapLength);
          if e.length >= bitmapLength {
            frameMap := e.base;
            GiveUpHead(usableIdx, e);
          }
          usableIdx := usableIdx + 1;
        }
      }
      if frameMap == 0 {
        return Halt(NoBitmapHome);
      }
      DirectMapRoundTrip(hhdmoff, home, 0);
      P2vIsWrap(hhdmoff, home);
      frameMap := U64(frameMap + hhdmoff);
      assert regionInfo[..numRegions] == TrimmedRegions(us, bitmapLength);
      return Done(());
    }

    /** Moves the start of region k past a bitmap's worth of bytes. */
    method GiveUpHead(k: nat, ghost e: MemmapEntry)
      requires Shaped() && k < MAX_REGIONS && LimineEntry(e) && bitmapLength <= e.length
      requires regionInfo[k] == EntryRegion(e)
      modifies regionInfo
      ensures regionInfo[..] == old(regionInfo[..])[k := TrimmedRegion(e, bitmapLength)]
    {
      hide EntryRegion, TrimmedRegion, U64, PgRoundUp;
      TrimmedAsCoded(e, bitmapLength);
      var region := regionInfo[k];
      var start := PgRoundUp(region.start + bitmapLength);
      regionInfo[k] := Region(start, region.end, U64(region.end - start) / PAGE);
    }

    method InitializeBitmap() returns (r: Outcome<()>)
      requires Shaped() && bitmapLength < TWO_32 && V2p(hhdmoff, frameMap) + bitmapLength <= PHYS_SIZE
      modifies mem
      ensures r == if frameMap == 0 then Halt(NoBitmapHome) else Done(())
      ensures r.Done? ==> Contents() == Fill(old(Contents()), V2p(hhdmoff, frameMap), bitmapLength, 0x88)
    {
      hide Fill, V2p, U64;
      if frameMap == 0 {
        return Halt(NoBitmapHome);
      }
      ghost var m := Contents();
      ghost var a := V2p(hhdmoff, frameMap);
      FillNothing(m, a, 0x88);
      var byte := ((AVAIL & 0xF) << 4) + (AVAIL & 0xF);
      var i := 0;
      while i < bitmapLength
        invariant i <= bitmapLength
        invariant Contents() == Fill(m, a, i, 0x88)
      {
        DirectMapOffset(hhdmoff, frameMap, i);
        mem[V2p(hhdmoff, U64(frameMap + i))] := byte;
        FillOneMore(m, a, i, 0x88);
        i := (i + 1) % TWO_32;
      }
      return Done(());
    }

    /** Turns a flat index into an address, region by region, whatever the regions and their sizes. */
    method WalkRegions(flat: nat) returns (r: Outcome<nat>)
      requires Shaped() && 0 < numRegions
      ensures r == match RawWalk(LayoutNow().regions, flat)
                   case None => Halt(RegionsExhausted)
                   case Some(addr) => Done(addr)
    {
      hide U64, U32, SignedAsU64;
      ghost var rs := LayoutNow().regions;
      assert rs[0..] == rs;
      var mapIdx: nat, copy: nat := 0, flat;
      while SignedAsU64(copy) >= regionInfo[mapIdx].pages
        invariant mapIdx < numRegions
        invariant RawWalk(rs[mapIdx..], copy) == RawWalk(rs, flat)
        decreases numRegions - mapIdx
      {
        assert rs[mapIdx..][1..] == rs[mapIdx + 1..];
        copy := U64(copy - regionInfo[mapIdx].pages);
        mapIdx := mapIdx + 1;
        if !(mapIdx < numRegions) {
          return Halt(RegionsExhausted);
        }
      }
      return Done(U64(regionInfo[mapIdx].start + U32(U32(copy) * PAGE)));
    }

    /** Advances index to the first available frame; stopping at max_frames is the failed CHASSERT. */
    method ScanForAvailable() returns (flag: bv8)
      requires Valid() && index < maxFrames
      modifies `index
      ensures index <= maxFrames && index == NextAvailable(Contents(), LayoutNow(), old(index))
      ensures flag == Nibble(Contents(), LayoutNow().bitmap, index)
    {
      hide GetFlags, NextAvailable, V2p, WellFormedRegions;
      ghost var l := LayoutNow();
      flag := GetFrameFlags(index);
      while flag & AVAIL == 0
        invariant index < maxFrames
        invariant flag == Nibble(Contents(), l.bitmap, index)
        invariant NextAvailable(Contents(), l, old(index)) == NextAvailable(Contents(), l, index)
        decreases maxFrames - index
      {
        ScanStep(Contents(), l, index);
        index := index + 1;
        flag := GetFrameFlags(index);
        if !(index < maxFrames) {
          break;
        }
      }
      ScanStep(Contents(), l, index);
    }

    /** Hands out a frame: the scan stops at the first available nibble, whose index becomes the address. */
    method FrameAlloc(zeroed: bool) returns (r: Outcome<nat>)
      requires Valid()
      modifies mem, `index
      ensures r.Halt? ==> FrameAllocation.FrameAlloc(LayoutNow(), old(Contents()), old(index), zeroed) == Halt(r.site)
      ensures r.Done? ==> FrameAllocation.FrameAlloc(LayoutNow(), old(Contents()), old(index), zeroed)
                          == Done(Allocation(r.value, Contents(), index))
    {
      hide WalkFrame, Fill, PutNibble, GetFlags, NextAvailable, V2p, P2v, U64, WellFormedRegions, RawWalk;
      ghost var l, m := LayoutNow(), Contents();
      if index >= maxFrames {
        return Done(MINUS_ONE);
      }
      var flag := ScanForAvailable();
      if index == maxFrames {
        return Halt(ScanExhausted);
      }
      flag := flag & 7;
      SetFrameFlags(index, flag);
      ghost var frame := WalkFrame(l, index);
      r := WalkRegions(index);
      if r.Halt? {
        return;
      }
      var addr := r.value;
      index := index + 1;
      if zeroed {
        DirectMapRoundTrip(hhdmoff, addr, 0);
        P2vIsWrap(hhdmoff, addr);
        Memset(U64(addr + hhdmoff), 0, PAGE);
      }
      return Done(addr);
    }
  }
}
