/** What frame_alloc does to physical memory, and what follows for whole runs of it. */
module FrameAllocation {
  import opened MachineInts
  import opened PhysicalMemory
  import opened Entries
  import opened Regions
  import opened Bitmap
  import opened BootMap

  /** Least available frame at or above i, or max_frames if there is none. */
  function NextAvailable(m: Memory, l: Layout, i: nat): (j: nat)
    requires i <= l.maxFrames && Placed(l)
    ensures i <= j <= l.maxFrames
    ensures j < l.maxFrames ==> Available(m, l.bitmap, j)
    ensures forall k :: i <= k < j ==> !Available(m, l.bitmap, k)
    decreases l.maxFrames - i
  {
    if i == l.maxFrames || Available(m, l.bitmap, i) then i else NextAvailable(m, l, i + 1)
  }

  /** Frame number behind the address that the walk returns for flat index j. */
  function WalkFrame(l: Layout, j: nat): (f: Option<nat>)
    requires Placed(l)
    ensures f.None? <==> RawWalk(l.regions, j).None?
    ensures f.Some? ==> f.value < FRAMES && RawWalk(l.regions, j) == Some(PAGE * f.value)
  {
    WalkStaysInside(l.regions, j);
    match RawWalk(l.regions, j)
    case None => None
    case Some(a) => Some(a / PAGE)
  }

  /** A page of a usable region that shares no byte with the bitmap. */
  ghost predicate SafePage(l: Layout, a: nat) {
    && (exists r :: 0 <= r < |l.regions| && PageOfRegion(l.regions[r], a))
    && (a + PAGE <= l.bitmap || l.bitmap + l.bitmapLength <= a)
  }

  /** In a sound layout the walk succeeds exactly below the page total, and keeps clear of the bitmap. */
  lemma {:induction false} WalkInSound(l: Layout, j: nat)
    requires Sound(l) && j <= l.maxFrames
    ensures RawWalk(l.regions, j).Some? <==> j < Total(l.regions)
    ensures j < Total(l.regions) ==> SafePage(l, RawWalk(l.regions, j).value)
  {
    hide RawWalk, Total, FlatBase, RegionOf;
    if j < Total(l.regions) {
      var r := RegionOf(l.regions, j);
      WalkAtOffset(l.regions, r, j - FlatBase(l.regions, r));
      WalkStaysInside(l.regions, j);
      var q :| 0 <= q < |l.regions| && PageOfRegion(l.regions[q], RawWalk(l.regions, j).value);
      assert l.regions[q].end <= l.bitmap || l.bitmap + l.bitmapLength <= l.regions[q].start;
    } else {
      WalkPastTheEnd(l.regions, j);
    }
  }

  /** Frame number handed out for flat index j. */
  function PageFrame(l: Layout, j: nat): (f: nat)
    requires Sound(l) && j < Total(l.regions)
    ensures f < FRAMES && WalkFrame(l, j) == Some(f)
  {
    WalkInSound(l, j);
    WalkFrame(l, j).value
  }

  /** It is a page of a region and shares no byte with the bitmap. */
  lemma {:induction false} PageFrameSafe(l: Layout, j: nat)
    requires Sound(l) && j < Total(l.regions)
    ensures SafePage(l, PAGE * PageFrame(l, j))
  {
    hide SafePage, Total, RawWalk;
    WalkInSound(l, j);
  }

  /** Two of the first n indices never share a frame if and only if no offset below n reaches 2^20 pages. */
  lemma {:induction false} PageFrameInjective(l: Layout, n: nat)
    requires Sound(l) && n <= Total(l.regions)
    ensures (forall j, k :: 0 <= j < k < n ==> PageFrame(l, j) != PageFrame(l, k)) <==> OffsetsSmall(l.regions, n)
  {
    hide RawWalk, Total, OffsetsSmall, WalkFrame;
    WalkExactUpTo(l.regions, n);
    forall j, k | 0 <= j < k < n
      ensures PageFrame(l, j) == PageFrame(l, k) <==> RawWalk(l.regions, j) == RawWalk(l.regions, k)
    {
      assert RawWalk(l.regions, j) == Some(PAGE * PageFrame(l, j));
      assert RawWalk(l.regions, k) == Some(PAGE * PageFrame(l, k));
    }
  }

  lemma {:induction false} FramesDiffer(l: Layout, n: nat, j: nat, k: nat)
    requires Sound(l) && OffsetsSmall(l.regions, n) && j < k < n && k < Total(l.regions)
    ensures PageFrame(l, j) != PageFrame(l, k)
  {
    hide PageFrame, Total, RegionOf, FlatBase;
    PageFrameInjective(l, k + 1);
  }

  datatype Allocation = Allocation(addr: nat, mem: Memory, index: nat)

  /** Memory once frame number j is taken for frame f: its AVAIL bit is cleared, then f is zeroed on request. */
  function TakenAt(l: Layout, m: Memory, j: nat, f: nat, zeroed: bool): Memory
    requires Placed(l) && j < l.maxFrames && f < FRAMES
  {
    var m1 := PutNibble(m, l.bitmap, j, Nibble(m, l.bitmap, j) & 7);
    if zeroed then ZeroFrame(m1, f) else m1
  }

  /** frame_alloc from an arbitrary bitmap, whatever the size of the regions. */
  function FrameAlloc(l: Layout, m: Memory, index: nat, zeroed: bool): Outcome<Allocation>
    requires Placed(l)
  {
    if index >= l.maxFrames then Done(Allocation(MINUS_ONE, m, index))
    else
      var j := NextAvailable(m, l, index);
      if j == l.maxFrames then Halt(ScanExhausted)
      else match WalkFrame(l, j)
        case None => Halt(RegionsExhausted)
        case Some(f) => Done(Allocation(PAGE * f, TakenAt(l, m, j, f, zeroed), j + 1))
  }

  /** The same for the page with flat index j of a sound layout. */
  function Taken(l: Layout, m: Memory, j: nat, zeroed: bool): Memory
    requires Sound(l) && j < Total(l.regions)
  {
    TakenAt(l, m, j, PageFrame(l, j), zeroed)
  }

  lemma {:induction false} FillElsewhere(m: Memory, f: nat, a: nat)
    requires f < FRAMES && a < PHYS_SIZE
    ensures ZeroFrame(m, f)[a] == if PAGE * f <= a < PAGE * f + PAGE then 0 else m[a]
  {
  }

  /** Taking a frame changes that frame's flags only and keeps its three other flag bits. */
  lemma {:induction false} TakenNibbles(l: Layout, m: Memory, j: nat, zeroed: bool)
    requires Sound(l) && j < Total(l.regions)
    ensures forall k :: 0 <= k < 2 * l.bitmapLength ==>
              Nibble(Taken(l, m, j, zeroed), l.bitmap, k)
              == if k == j then Nibble(m, l.bitmap, j) & 7 else Nibble(m, l.bitmap, k)
  {
    var flags := Nibble(m, l.bitmap, j) & 7;
    var m1 := PutNibble(m, l.bitmap, j, flags);
    PageFrameSafe(l, j);
    var m2 := Taken(l, m, j, zeroed);
    forall k: nat | k < 2 * l.bitmapLength
      ensures Nibble(m2, l.bitmap, k) == if k == j then flags else Nibble(m, l.bitmap, k)
    {
      NibbleAfterPut(m, l.bitmap, j, flags, k);
      FillElsewhere(m1, PageFrame(l, j), l.bitmap + k / 2);
    }
  }

  /** It touches no byte outside its bitmap byte and, when zeroing, the frame itself, which becomes all zeros. */
  lemma {:induction false} TakenFootprint(l: Layout, m: Memory, j: nat, zeroed: bool)
    requires Sound(l) && j < Total(l.regions)
    ensures forall a :: 0 <= a < PHYS_SIZE && a != l.bitmap + j / 2 && !(zeroed && a / PAGE == PageFrame(l, j)) ==>
              Taken(l, m, j, zeroed)[a] == m[a]
    ensures zeroed ==> forall a :: 0 <= a < PHYS_SIZE && a / PAGE == PageFrame(l, j) ==>
              Taken(l, m, j, zeroed)[a] == 0
  {
    hide PageFrame, SetFlags, GetFlags, Fill, ZeroFrame;
    var m1 := PutNibble(m, l.bitmap, j, Nibble(m, l.bitmap, j) & 7);
    forall a: nat | a < PHYS_SIZE
      ensures Taken(l, m, j, zeroed)[a] == if zeroed && a / PAGE == PageFrame(l, j) then 0 else m1[a]
    {
      FillElsewhere(m1, PageFrame(l, j), a);
    }
  }

  /** Every index below `index` has been handed out and no other: the state of every run from boot. */
  ghost predicate InOrder(l: Layout, m: Memory, index: nat)
    requires Placed(l) && l.bitmapLength <= l.maxFrames / 2
  {
    && index <= Total(l.regions)
    && forall j :: 0 <= j < 2 * l.bitmapLength ==> Nibble(m, l.bitmap, j) == if j < index then 0 else AVAIL
  }

  lemma {:induction false} BitmapFillInOrder(l: Layout, m: Memory)
    requires Sound(l)
    ensures InOrder(l, Fill(m, l.bitmap, l.bitmapLength, 0x88), 0)
  {
    var m' := Fill(m, l.bitmap, l.bitmapLength, 0x88);
    forall j: nat | j < 2 * l.bitmapLength
      ensures Nibble(m', l.bitmap, j) == AVAIL
    {
      assert m'[l.bitmap + j / 2] == 0x88;
    }
  }

  lemma {:induction false} NibbleIsSmall(m: Memory, base: nat, j: nat)
    requires base + j / 2 < PHYS_SIZE
    ensures Nibble(m, base, j) < 16 && Nibble(m, base, j) & 7 < 16
  {
  }

  /** By value: taking an available frame lowers its bitmap byte by 128 if its number is even, by 8 if it is odd. */
  lemma {:induction false} TakenByte(l: Layout, m: Memory, j: nat, f: nat, zeroed: bool)
    requires Placed(l) && j < l.maxFrames && f < FRAMES && Available(m, l.bitmap, j)
    requires PAGE * f + PAGE <= l.bitmap + j / 2 || l.bitmap + j / 2 < PAGE * f
    ensures TakenAt(l, m, j, f, zeroed)[l.bitmap + j / 2] as nat
         == m[l.bitmap + j / 2] as nat - if j % 2 == 0 then 128 else 8
  {
    hide Nibble, PutNibble, WellFormedRegions, ZeroFrame;
    var n := Nibble(m, l.bitmap, j);
    NibbleByValue(m, l.bitmap, j);
    NibbleIsSmall(m, l.bitmap, j);
    TopFlag(n);
    PutNibbleByValue(m, l.bitmap, j, n & 7);
    FillElsewhere(PutNibble(m, l.bitmap, j, n & 7), f, l.bitmap + j / 2);
  }

  lemma {:induction false} TwoNibbles(b: bv8)
    ensures b == 0x00 <==> GetFlags(b, 4) == 0 && GetFlags(b, 0) == 0
    ensures b == 0x08 <==> GetFlags(b, 4) == 0 && GetFlags(b, 0) == AVAIL
    ensures b == 0x88 <==> GetFlags(b, 4) == AVAIL && GetFlags(b, 0) == AVAIL
  {
  }

  /** In order means, byte by byte: 0x00 for two frames handed out, 0x08 for the first of the two only, else 0x88. */
  lemma {:induction false} BitmapBytes(l: Layout, m: Memory, index: nat)
    requires Placed(l) && l.bitmapLength <= l.maxFrames / 2
    ensures InOrder(l, m, index) <==>
      && index <= Total(l.regions)
      && forall k :: 0 <= k < l.bitmapLength ==>
           m[l.bitmap + k] == if 2 * k + 2 <= index then 0x00 else if 2 * k + 1 == index then 0x08 else 0x88
  {
    hide Total, GetFlags, WellFormedRegions;
    forall k: nat | k < l.bitmapLength
      ensures 2 * k / 2 == k && (2 * k + 1) / 2 == k
      ensures m[l.bitmap + k] == (if 2 * k + 2 <= index then 0x00 else if 2 * k + 1 == index then 0x08 else 0x88)
         <==> && Nibble(m, l.bitmap, 2 * k) == (if 2 * k < index then 0 else AVAIL)
              && Nibble(m, l.bitmap, 2 * k + 1) == (if 2 * k + 1 < index then 0 else AVAIL)
    {
      TwoNibbles(m[l.bitmap + k]);
    }
    if forall k :: 0 <= k < l.bitmapLength ==>
         m[l.bitmap + k] == if 2 * k + 2 <= index then 0x00 else if 2 * k + 1 == index then 0x08 else 0x88 {
      forall j: nat | j < 2 * l.bitmapLength
        ensures Nibble(m, l.bitmap, j) == if j < index then 0 else AVAIL
      {
        var k := j / 2;
        assert j == 2 * k || j == 2 * k + 1;
      }
    }
  }

  /** In a state reached from boot, frame_alloc hands out exactly the next page of the regions, or halts
      when none is left; it never returns -1. */
  lemma {:induction false} AllocInOrder(l: Layout, m: Memory, index: nat, zeroed: bool)
    requires Roomy(l) && InOrder(l, m, index)
    ensures index == Total(l.regions) ==> FrameAlloc(l, m, index, zeroed).Halt?
    ensures index < Total(l.regions) ==>
      && FrameAlloc(l, m, index, zeroed)
         == Done(Allocation(PAGE * PageFrame(l, index), Taken(l, m, index, zeroed), index + 1))
      && InOrder(l, Taken(l, m, index, zeroed), index + 1)
  {
    hide Total, WalkFrame, PageFrame, RawWalk, PutNibble, ZeroFrame;
    if index < Total(l.regions) {
      assert Available(m, l.bitmap, index);
      TakenNibbles(l, m, index, zeroed);
    } else if NextAvailable(m, l, index) < l.maxFrames {
      WalkInSound(l, NextAvailable(m, l, index));
    }
  }

  /** Where the first failing call stops. It reaches the region walk unless the bitmap's rounding leaves the
      first missing frame without a nibble of its own and the stray bits after the bitmap say "taken". */
  lemma {:induction false} LastCallHalts(l: Layout, m: Memory, zeroed: bool)
    requires Roomy(l) && InOrder(l, m, Total(l.regions))
    ensures FrameAlloc(l, m, Total(l.regions), zeroed).Halt?
    ensures FrameAlloc(l, m, Total(l.regions), zeroed).site == RegionsExhausted
       <==> Total(l.regions) < 2 * l.bitmapLength || Available(m, l.bitmap, Total(l.regions))
  {
    hide WalkFrame, RawWalk, PutNibble, ZeroFrame;
    var t := Total(l.regions);
    AllocInOrder(l, m, t, zeroed);
    if t < 2 * l.bitmapLength {
      assert Available(m, l.bitmap, t);
    } else {
      assert l.maxFrames == t + 1;
    }
  }

  /** A run of frame_alloc calls, one per element of zs. */
  function AllocRun(l: Layout, m: Memory, index: nat, zs: seq<bool>): Outcome<(seq<nat>, Memory, nat)>
    requires Placed(l)
    decreases |zs|
  {
    if zs == [] then Done(([], m, index))
    else match FrameAlloc(l, m, index, zs[0])
      case Halt(site) => Halt(site)
      case Done(a) =>
        match AllocRun(l, a.mem, a.index, zs[1..])
        case Halt(site) => Halt(site)
        case Done((addrs, m', i')) => Done(([a.addr] + addrs, m', i'))
  }

  /** The addresses of n frames from flat index `index` on. */
  function FramesFrom(l: Layout, index: nat, n: nat): (addrs: seq<nat>)
    requires Sound(l) && index + n <= Total(l.regions)
    ensures |addrs| == n
    ensures forall k :: 0 <= k < n ==> addrs[k] == PAGE * PageFrame(l, index + k)
    decreases n
  {
    if n == 0 then [] else [PAGE * PageFrame(l, index)] + FramesFrom(l, index + 1, n - 1)
  }

  lemma {:induction false} AllocRunSteps(l: Layout, m: Memory, index: nat, zs: seq<bool>)
    requires Roomy(l) && InOrder(l, m, index)
    decreases |zs|
    ensures AllocRun(l, m, index, zs).Done? <==> index + |zs| <= Total(l.regions)
    ensures AllocRun(l, m, index, zs).Done? ==>
      var (addrs, m', i') := AllocRun(l, m, index, zs).value;
      && i' == index + |zs| && InOrder(l, m', i') && addrs == FramesFrom(l, index, |zs|)
  {
    hide Sound, FrameAlloc, Taken, PageFrame, Total, Nibble;
    if zs == [] {
    } else {
      AllocInOrder(l, m, index, zs[0]);
      if index < Total(l.regions) {
        AllocRunSteps(l, Taken(l, m, index, zs[0]), index + 1, zs[1..]);
      }
    }
  }

  predicate Distinct(addrs: seq<nat>) {
    forall j, k :: 0 <= j < k < |addrs| ==> addrs[j] != addrs[k]
  }

  lemma {:induction false} FramesFromDistinct(l: Layout, n: nat)
    requires Sound(l) && n <= Total(l.regions)
    ensures Distinct(FramesFrom(l, 0, n)) <==> forall j, k :: 0 <= j < k < n ==> PageFrame(l, j) != PageFrame(l, k)
  {
    hide Total, PageFrame, Sound;
    var addrs := FramesFrom(l, 0, n);
    assert forall k :: 0 <= k < n ==> addrs[k] == PAGE * PageFrame(l, 0 + k);
    if Distinct(addrs) {
      forall j, k | 0 <= j < k < n
        ensures PageFrame(l, j) != PageFrame(l, k)
      {
        assert addrs[j] != addrs[k];
      }
    }
  }

  lemma {:induction false} FramesFromSafe(l: Layout, n: nat)
    requires Sound(l) && n <= Total(l.regions)
    ensures forall k :: 0 <= k < n ==> SafePage(l, FramesFrom(l, 0, n)[k])
    ensures Distinct(FramesFrom(l, 0, n)) <==> OffsetsSmall(l.regions, n)
  {
    hide Total, OffsetsSmall, SafePage, PageFrame, Distinct, Sound;
    PageFrameInjective(l, n);
    FramesFromDistinct(l, n);
    var addrs := FramesFrom(l, 0, n);
    forall k | 0 <= k < n
      ensures SafePage(l, addrs[k])
    {
      assert addrs[k] == PAGE * PageFrame(l, 0 + k);
      PageFrameSafe(l, k);
    }
  }

  /** Over any run from a boot state: exactly Total calls succeed; what they return is page-aligned, lies in a
      usable region and keeps clear of the bitmap; and it never repeats if and only if no offset among the indices
      used reaches 2^20 pages. */
  lemma {:induction false} AllocRunSafe(l: Layout, m: Memory, zs: seq<bool>)
    requires Roomy(l) && InOrder(l, m, 0)
    ensures AllocRun(l, m, 0, zs).Done? <==> |zs| <= Total(l.regions)
    ensures AllocRun(l, m, 0, zs).Done? ==>
      var addrs := AllocRun(l, m, 0, zs).value.0;
      && |addrs| == |zs|
      && (forall k :: 0 <= k < |addrs| ==> SafePage(l, addrs[k]))
      && (Distinct(addrs) <==> OffsetsSmall(l.regions, |zs|))
  {
    hide AllocRun, Total, Nibble, SafePage, PageFrame, OffsetsSmall, Distinct;
    AllocRunSteps(l, m, 0, zs);
    if AllocRun(l, m, 0, zs).Done? {
      FramesFromSafe(l, |zs|);
    }
  }

  /** The first n frames are distinct, and a table address in any of them survives the 40-bit pointer field. */
  ghost predicate Trusted(l: Layout, n: nat)
    requires Sound(l)
  {
    && OffsetsSmall(l.regions, n)
    && forall j :: 0 <= j < n && j < Total(l.regions) ==> PageFrame(l, j) < 0x1000_0000
  }

  lemma {:induction false} TrustedBelow(l: Layout, n: nat, k: nat)
    requires Sound(l) && Trusted(l, n) && k <= n
    ensures Trusted(l, k)
  {
    hide PageFrame, Total, SmallOffset;
  }
}
