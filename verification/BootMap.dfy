/** What the two passes over the boot memory map compute: the trimmed regions, the frame count and the
    place of the bitmap. */
module BootMap {
  import opened MachineInts
  import opened PhysicalMemory
  import opened Regions

  datatype Kind = Usable | Reserved | AcpiReclaimable | AcpiNvs | BadMemory | BootloaderReclaimable
                | KernelAndModules | Framebuffer

  datatype MemmapEntry = MemmapEntry(base: nat, length: nat, kind: Kind)

  /** Outcome of initialisation as the allocator sees it. `bitmap` is a physical address. */
  datatype Layout = Layout(regions: seq<Region>, maxFrames: nat, bitmap: nat, bitmapLength: nat)

  function UsableEntries(es: seq<MemmapEntry>): (us: seq<MemmapEntry>)
    ensures |us| <= |es|
  {
    if es == [] then []
    else if es[0].kind == Usable then [es[0]] + UsableEntries(es[1..])
    else UsableEntries(es[1..])
  }

  /** The usable entries are those of that kind, as often as they occur, and in the map's order. */
  lemma {:induction false} UsableEntriesAre(xs: seq<MemmapEntry>, ys: seq<MemmapEntry>, e: MemmapEntry)
    ensures UsableEntries(xs + ys) == UsableEntries(xs) + UsableEntries(ys)
    ensures UsableEntries([e]) == if e.kind.Usable? then [e] else []
    decreases |xs|
  {
    assert [e][1..] == [];
    if xs == [] {
      assert xs + ys == ys;
    } else {
      assert (xs + ys)[0] == xs[0] && (xs + ys)[1..] == xs[1..] + ys;
      UsableEntriesAre(xs[1..], ys, e);
    }
  }

  /** What the Limine Boot Protocol promises of usable entries. */
  predicate LimineEntry(e: MemmapEntry) {
    e.base % PAGE == 0 && e.length % PAGE == 0 && 0 < e.base && e.base + e.length <= PHYS_SIZE
  }

  ghost predicate LimineUsable(us: seq<MemmapEntry>) {
    && (forall i :: 0 <= i < |us| ==> LimineEntry(us[i]))
    && (forall i, j :: 0 <= i < j < |us| ==>
          us[i].base + us[i].length <= us[j].base || us[j].base + us[j].length <= us[i].base)
  }

  function FreeBytes(us: seq<MemmapEntry>): nat {
    if us == [] then 0 else us[0].length + FreeBytes(us[1..])
  }

  /** First pass: a region per usable entry. */
  function EntryRegion(e: MemmapEntry): Region {
    Region(e.base, U64(e.base + e.length), e.length / PAGE)
  }

  /** Second pass: a region long enough for the bitmap gives up its head, whether or not it ends up hosting it. */
  function TrimmedRegion(e: MemmapEntry, bitmapLength: nat): Region
    requires LimineEntry(e)
  {
    var r := EntryRegion(e);
    if e.length >= bitmapLength then
      var start := PgRoundUp(e.base + bitmapLength);
      Region(start, r.end, U64(r.end - start) / PAGE)
    else r
  }

  function TrimmedRegions(us: seq<MemmapEntry>, bitmapLength: nat): (rs: seq<Region>)
    requires forall i :: 0 <= i < |us| ==> LimineEntry(us[i])
    ensures |rs| == |us| && forall i :: 0 <= i < |us| ==> rs[i] == TrimmedRegion(us[i], bitmapLength)
  {
    if us == [] then [] else [TrimmedRegion(us[0], bitmapLength)] + TrimmedRegions(us[1..], bitmapLength)
  }

  /** The bitmap's base: each long enough entry replaces the choice made so far. */
  function BitmapHome(us: seq<MemmapEntry>, bitmapLength: nat, chosen: nat): nat {
    if us == [] then chosen
    else BitmapHome(us[1..], bitmapLength, if us[0].length >= bitmapLength then us[0].base else chosen)
  }

  function LargeCount(us: seq<MemmapEntry>, bitmapLength: nat): nat {
    if us == [] then 0 else (if us[0].length >= bitmapLength then 1 else 0) + LargeCount(us[1..], bitmapLength)
  }

  function FrameCount(us: seq<MemmapEntry>): nat {
    FreeBytes(us) / PAGE
  }

  function BootLayout(us: seq<MemmapEntry>): Layout
    requires forall i :: 0 <= i < |us| ==> LimineEntry(us[i])
  {
    var n := FrameCount(us);
    Layout(TrimmedRegions(us, n / 2), n, BitmapHome(us, n / 2, 0), n / 2)
  }

  lemma {:induction false} RoundUpFromAligned(base: nat, n: nat)
    requires base % PAGE == 0 && base + n + PAGE <= TWO_64
    ensures PgRoundUp(base + n) == base + PAGE * CeilDiv(n, PAGE)
  {
  }

  /** Trimming rounds the start up but never past the end, and costs exactly ceil(bitmapLength / 4096) pages. */
  lemma {:induction false} TrimOneRegion(e: MemmapEntry, bitmapLength: nat)
    requires LimineEntry(e)
    ensures var r := TrimmedRegion(e, bitmapLength);
      && WellFormed(r) && e.base <= r.start <= r.end == e.base + e.length
      && (e.length >= bitmapLength ==> e.base + bitmapLength <= r.start)
      && r.pages + (if e.length >= bitmapLength then CeilDiv(bitmapLength, PAGE) else 0) == e.length / PAGE
  {
    hide PgRoundUp, CeilDiv, U64;
    var r := TrimmedRegion(e, bitmapLength);
    NoWrap(e.base + e.length);
    if e.length >= bitmapLength {
      RoundUpFromAligned(e.base, bitmapLength);
      RoundUpFromAligned(e.base, e.length);
      NoWrap(r.end - r.start);
      assert r.start == e.base + PAGE * CeilDiv(bitmapLength, PAGE);
    }
  }

  lemma {:induction false} SumOfMultiples(x: nat, y: nat)
    requires x % PAGE == 0 && y % PAGE == 0
    ensures (x + y) % PAGE == 0 && (x + y) / PAGE == x / PAGE + y / PAGE
  {
  }

  lemma {:induction false} FreeBytesAligned(us: seq<MemmapEntry>)
    requires forall i :: 0 <= i < |us| ==> LimineEntry(us[i])
    ensures FreeBytes(us) % PAGE == 0
    ensures us != [] ==> FrameCount(us) == us[0].length / PAGE + FrameCount(us[1..])
  {
    if us == [] {
    } else {
      FreeBytesAligned(us[1..]);
      SumOfMultiples(us[0].length, FreeBytes(us[1..]));
    }
  }

  lemma {:induction false} NoFrames()
    ensures FrameCount([]) == 0
  {
  }

  /** Pages are conserved across the two passes. */
  lemma {:induction false} TrimConserves(us: seq<MemmapEntry>, bitmapLength: nat)
    requires forall i :: 0 <= i < |us| ==> LimineEntry(us[i])
    ensures Total(TrimmedRegions(us, bitmapLength)) + LargeCount(us, bitmapLength) * CeilDiv(bitmapLength, PAGE)
         == FrameCount(us)
  {
    hide TrimmedRegion, CeilDiv, FrameCount, FreeBytes, WellFormed, LimineEntry;
    FreeBytesAligned(us);
    if us == [] {
      NoFrames();
    } else {
      TrimConserves(us[1..], bitmapLength);
      TrimOneRegion(us[0], bitmapLength);
      var rs := TrimmedRegions(us, bitmapLength);
      assert rs[0] == TrimmedRegion(us[0], bitmapLength) && rs[1..] == TrimmedRegions(us[1..], bitmapLength);
      var c := CeilDiv(bitmapLength, PAGE);
      var k := LargeCount(us[1..], bitmapLength);
      assert (1 + k) * c == c + k * c;
    }
  }

  lemma {:induction false} NoneLarge(us: seq<MemmapEntry>, n: nat)
    ensures LargeCount(us, n) == 0 <==> forall i :: 0 <= i < |us| ==> us[i].length < n
  {
    if us == [] {
    } else {
      NoneLarge(us[1..], n);
      forall i | 0 <= i < |us|
        ensures i > 0 ==> us[i] == us[1..][i - 1]
      {
      }
    }
  }

  /** The home is the last entry that is long enough; 0 stands for none. */
  lemma {:induction false} HomeIsLastLarge(us: seq<MemmapEntry>, n: nat, chosen: nat)
    requires forall i :: 0 <= i < |us| ==> LimineEntry(us[i])
    ensures LargeCount(us, n) == 0 ==> BitmapHome(us, n, chosen) == chosen
    ensures LargeCount(us, n) > 0 ==>
      exists h :: 0 <= h < |us| && us[h].length >= n && BitmapHome(us, n, chosen) == us[h].base
               && forall i :: h < i < |us| ==> us[i].length < n
  {
    if us == [] {
    } else {
      var next := if us[0].length >= n then us[0].base else chosen;
      HomeIsLastLarge(us[1..], n, next);
      if LargeCount(us[1..], n) > 0 {
        var h :| 0 <= h < |us[1..]| && us[1..][h].length >= n && BitmapHome(us[1..], n, next) == us[1..][h].base
               && forall i :: h < i < |us[1..]| ==> us[1..][i].length < n;
        assert us[h + 1].length >= n;
        forall i | h + 1 < i < |us|
          ensures us[i].length < n
        {
          assert us[i] == us[1..][i - 1];
        }
      } else {
        NoneLarge(us[1..], n);
        forall i | 0 < i < |us|
          ensures us[i].length < n
        {
          assert us[i] == us[1..][i - 1];
        }
      }
    }
  }

  /** What keeps the accesses of frame_alloc inside physical memory. */
  ghost predicate Placed(l: Layout) {
    0 < |l.regions| && WellFormedRegions(l.regions) && l.bitmap + l.maxFrames / 2 < PHYS_SIZE
  }

  /** A layout whose flat indices the walk can tell apart (Regions.IndexBoundsTight) and whose regions avoid the
      bitmap. */
  ghost predicate Sound(l: Layout) {
    && Placed(l)
    && l.bitmapLength == l.maxFrames / 2
    && (forall r :: 0 <= r < |l.regions| ==> l.regions[r].pages <= SIGN_BIT)
    && Total(l.regions) <= l.maxFrames < TWO_32
    && (forall r :: 0 <= r < |l.regions| ==>
          l.regions[r].end <= l.bitmap || l.bitmap + l.bitmapLength <= l.regions[r].start)
  }

  /** Some frame number is left for no page, so frame_alloc runs out of pages before it runs out of numbers. */
  ghost predicate Roomy(l: Layout) {
    Sound(l) && Total(l.regions) < l.maxFrames
  }

  /** What has to be assumed beyond the boot protocol: at most 32 usable entries of which one can host the bitmap,
      a byte behind each entry, fewer than 2^32 frames and at most 2^31 pages in a trimmed region. */
  ghost predicate Supported(us: seq<MemmapEntry>) {
    && LimineUsable(us) && |us| <= MAX_REGIONS
    && (forall i :: 0 <= i < |us| ==> us[i].base + us[i].length < PHYS_SIZE)
    && FrameCount(us) < TWO_32
    && LargeCount(us, FrameCount(us) / 2) > 0
    && (forall r :: 0 <= r < |us| ==> TrimmedRegions(us, FrameCount(us) / 2)[r].pages <= SIGN_BIT)
  }

  lemma {:induction false} LimineEntries(us: seq<MemmapEntry>)
    requires LimineUsable(us)
    ensures forall i :: 0 <= i < |us| ==> LimineEntry(us[i])
  {
  }

  lemma {:induction false} RegionsAvoidBitmap(us: seq<MemmapEntry>, b: nat, h: nat)
    requires LimineUsable(us) && h < |us| && us[h].length >= b
    ensures forall i :: 0 <= i < |us| ==>
              var r := TrimmedRegions(us, b)[i]; r.end <= us[h].base || us[h].base + b <= r.start
  {
    forall i | 0 <= i < |us|
      ensures var r := TrimmedRegions(us, b)[i]; r.end <= us[h].base || us[h].base + b <= r.start
    {
      TrimOneRegion(us[i], b);
      hide TrimmedRegion;
      assert i < h ==> us[i].base + us[i].length <= us[h].base || us[h].base + us[h].length <= us[i].base;
      assert h < i ==> us[h].base + us[h].length <= us[i].base || us[i].base + us[i].length <= us[h].base;
    }
  }

  lemma {:induction false} TrimmedWellFormed(us: seq<MemmapEntry>, b: nat)
    requires LimineUsable(us) && |us| <= MAX_REGIONS
    ensures WellFormedRegions(TrimmedRegions(us, b))
  {
    var rs := TrimmedRegions(us, b);
    forall i | 0 <= i < |rs|
      ensures WellFormed(rs[i]) && us[i].base <= rs[i].start && rs[i].end == us[i].base + us[i].length
    {
      TrimOneRegion(us[i], b);
    }
    hide TrimmedRegion;
    forall i, j | 0 <= i < j < |rs|
      ensures rs[i].end <= rs[j].start || rs[j].end <= rs[i].start
    {
      assert us[i].base + us[i].length <= us[j].base || us[j].base + us[j].length <= us[i].base;
    }
  }

  lemma {:induction false} NoProduct(k: nat, c: nat)
    ensures c == 0 ==> k * c == 0
    ensures 0 < k ==> c <= k * c
  {
    assert 0 < k ==> k * c == c + (k - 1) * c;
  }

  /** The bitmap of two frames or more takes at least one whole page. */
  lemma {:induction false} BitmapTakesPages(n: nat, total: nat, k: nat)
    requires 0 < k && total + k * CeilDiv(n / 2, PAGE) == n
    ensures total < n <==> n >= 2
  {
    var c := CeilDiv(n / 2, PAGE);
    assert k * c == c + (k - 1) * c;
    assert c > 0 <==> n >= 2;
    NoProduct(k, c);
  }

  /** Exactly when there are two frames or more is the number of allocatable frames below max_frames. */
  lemma {:induction false} TotalBelowMaxFrames(us: seq<MemmapEntry>)
    requires LimineUsable(us) && LargeCount(us, FrameCount(us) / 2) > 0
    ensures var l := BootLayout(us);
      Total(l.regions) <= l.maxFrames && (Total(l.regions) < l.maxFrames <==> l.maxFrames >= 2)
  {
    hide TrimmedRegions, LargeCount, FrameCount, Total, BitmapHome, CeilDiv;
    var n := FrameCount(us);
    TrimConserves(us, n / 2);
    BitmapTakesPages(n, Total(BootLayout(us).regions), LargeCount(us, n / 2));
  }

  lemma {:induction false} BootLayoutSound(us: seq<MemmapEntry>)
    requires Supported(us)
    ensures Sound(BootLayout(us))
    ensures Roomy(BootLayout(us)) <==> FrameCount(us) >= 2
  {
    hide TrimmedRegion, TrimmedRegions, LargeCount, BitmapHome, FrameCount, CeilDiv, Total, WellFormedRegions,
         LimineUsable;
    LimineEntries(us);
    var n := FrameCount(us);
    var b := n / 2;
    var l := BootLayout(us);
    TrimmedWellFormed(us, b);
    TrimConserves(us, b);
    HomeIsLastLarge(us, b, 0);
    TotalBelowMaxFrames(us);
    var h :| 0 <= h < |us| && us[h].length >= b && l.bitmap == us[h].base;
    RegionsAvoidBitmap(us, b, h);
  }

  /** Every allocatable frame has its nibble inside the bitmap, although the bitmap rounds max_frames / 2 down,
      unless max_frames is 1. */
  lemma {:induction false} NibblesInsideBitmap(us: seq<MemmapEntry>)
    requires LimineUsable(us) && LargeCount(us, FrameCount(us) / 2) > 0
    ensures var l := BootLayout(us);
      (forall j :: 0 <= j < Total(l.regions) ==> j / 2 < l.bitmapLength) <==> l.maxFrames != 1
  {
    hide TrimmedRegions, LargeCount, FrameCount, Total, BitmapHome, LimineUsable;
    LimineEntries(us);
    var l := BootLayout(us);
    TotalBelowMaxFrames(us);
    TrimConserves(us, l.bitmapLength);
    if l.maxFrames == 1 {
      assert Total(l.regions) == 1 by {
        assert CeilDiv(0, PAGE) == 0;
      }
      assert 0 <= 0 < Total(l.regions) && 0 / 2 == 0;
    }
  }
}
