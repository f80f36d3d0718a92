/** Usable memory regions and the walk from a flat frame index to a physical address. */
module Regions {
  import opened MachineInts
  import opened PhysicalMemory

  const MAX_REGIONS: nat := 32
  /** Largest region, in pages, whose addresses survive the 32-bit product of the walk. */
  const SMALL: nat := 0x10_0000

  /** Offsets and flat indices on which the 32-bit casts of the walk are harmless. */
  const SIGN_BIT: nat := 0x8000_0000

  datatype Option<+T> = None | Some(value: T)

  datatype Region = Region(start: nat, end: nat, pages: nat)

  predicate WellFormed(r: Region) {
    r.start % PAGE == 0 && r.end == r.start + PAGE * r.pages && r.end <= PHYS_SIZE
  }

  ghost predicate WellFormedRegions(rs: seq<Region>) {
    && |rs| <= MAX_REGIONS
    && (forall i :: 0 <= i < |rs| ==> WellFormed(rs[i]))
    && (forall i, j :: 0 <= i < j < |rs| ==> rs[i].end <= rs[j].start || rs[j].end <= rs[i].start)
  }

  ghost predicate AllSmall(rs: seq<Region>) {
    forall i :: 0 <= i < |rs| ==> rs[i].pages <= SMALL
  }

  function Total(rs: seq<Region>): nat {
    if rs == [] then 0 else rs[0].pages + Total(rs[1..])
  }

  /** The j-th page of the regions laid end to end. */
  function PageAddr(rs: seq<Region>, j: nat): nat
    requires j < Total(rs)
  {
    if j < rs[0].pages then rs[0].start + PAGE * j else PageAddr(rs[1..], j - rs[0].pages)
  }

  /** (signed)copy converted to uint64_t for the comparison with a page count. */
  function SignedAsU64(copy: nat): nat {
    if U32(copy) < 0x8000_0000 then U32(copy) else U64(U32(copy) - TWO_32)
  }

  /** The walk as coded, casts and 32-bit product included; None is the failed bound check. */
  function RawWalk(rs: seq<Region>, copy: nat): Option<nat> {
    if rs == [] then None
    else if SignedAsU64(copy) >= rs[0].pages then RawWalk(rs[1..], U64(copy - rs[0].pages))
    else Some(U64(rs[0].start + U32(U32(copy) * PAGE)))
  }

  /** Flat index of the first page of region r. */
  function FlatBase(rs: seq<Region>, r: nat): (b: nat)
    requires r <= |rs|
    ensures b <= Total(rs)
    ensures r < |rs| ==> b + rs[r].pages <= Total(rs)
  {
    if r == 0 then 0 else rs[0].pages + FlatBase(rs[1..], r - 1)
  }

  /** The region that holds flat index j. */
  function RegionOf(rs: seq<Region>, j: nat): (r: nat)
    requires j < Total(rs)
    ensures r < |rs| && FlatBase(rs, r) <= j < FlatBase(rs, r) + rs[r].pages
  {
    if j < rs[0].pages then 0 else 1 + RegionOf(rs[1..], j - rs[0].pages)
  }

  lemma {:induction false} PageAddrInRegion(rs: seq<Region>, r: nat, off: nat)
    requires r < |rs| && off < rs[r].pages
    ensures PageAddr(rs, FlatBase(rs, r) + off) == rs[r].start + PAGE * off
  {
    if r == 0 {
    } else {
      PageAddrInRegion(rs[1..], r - 1, off);
    }
  }

  lemma {:induction false} FlatBaseBound(rs: seq<Region>, r: nat)
    requires r <= |rs| && AllSmall(rs[..r])
    ensures FlatBase(rs, r) <= SMALL * r
  {
    if r == 0 {
    } else {
      assert rs[..r][0] == rs[0];
      assert rs[1..][..r - 1] == rs[..r][1..];
      FlatBaseBound(rs[1..], r - 1);
    }
  }

  lemma {:induction false} CastOfSmall(off: nat)
    requires off < SIGN_BIT
    ensures SignedAsU64(off) == off && U32(off) == off
  {
  }

  /** The sign cast never makes the walk stay in a region that the index has passed. */
  lemma {:induction false} CastOfLarge(j: nat, pages: nat)
    requires pages <= j < TWO_32
    ensures SignedAsU64(j) >= pages
  {
  }

  lemma {:induction false} ProductWraps(off: nat)
    requires off < SIGN_BIT
    ensures U32(off * PAGE) == PAGE * (off % SMALL)
  {
    var q := off / SMALL;
    assert off * PAGE == TWO_32 * q + PAGE * (off % SMALL);
  }

  /** What the walk returns at offset off of region r: the offset is taken modulo 2^20 pages. */
  lemma {:induction false} WalkAtOffset(rs: seq<Region>, r: nat, off: nat)
    requires forall i :: 0 <= i < |rs| ==> WellFormed(rs[i])
    requires r < |rs| && off < rs[r].pages && off < SIGN_BIT
    requires FlatBase(rs, r) + off < TWO_32
    ensures RawWalk(rs, FlatBase(rs, r) + off) == Some(rs[r].start + PAGE * (off % SMALL))
  {
    hide U64, U32, SignedAsU64;
    var j := FlatBase(rs, r) + off;
    if r == 0 {
      CastOfSmall(off);
      ProductWraps(off);
      NoWrap(rs[0].start + PAGE * (off % SMALL));
    } else {
      CastOfLarge(j, rs[0].pages);
      NoWrap(j - rs[0].pages);
      WalkAtOffset(rs[1..], r - 1, off);
    }
  }

  lemma {:induction false} WalkPastTheEnd(rs: seq<Region>, j: nat)
    requires Total(rs) <= j < TWO_32
    ensures RawWalk(rs, j) == None
  {
    hide U64, U32, SignedAsU64;
    if rs == [] {
    } else {
      CastOfLarge(j, rs[0].pages);
      NoWrap(j - rs[0].pages);
      WalkPastTheEnd(rs[1..], j - rs[0].pages);
    }
  }

  /** Both bounds are tight: at offset 2^31 the cast turns negative and the walk leaves the region too early, and
      at flat index 2^32 it starts over although the region ended before. */
  lemma {:induction false} IndexBoundsTight(r: Region)
    requires WellFormed(r)
    ensures r.pages > SIGN_BIT ==> RawWalk([r], SIGN_BIT) == None
    ensures 0 < r.pages ==> RawWalk([r], TWO_32) == Some(r.start)
  {
    assert [r][1..] == [];
    assert SignedAsU64(SIGN_BIT) == TWO_64 - SIGN_BIT;
    assert SignedAsU64(TWO_32) == 0;
    NoWrap(r.start);
  }

  predicate PageOfRegion(r: Region, a: nat) {
    a % PAGE == 0 && r.start <= a && a + PAGE <= r.end
  }

  lemma {:induction false} CastBelow(copy: nat, pages: nat)
    requires SignedAsU64(copy) < pages <= PHYS_SIZE
    ensures U32(copy) < SIGN_BIT && U32(copy) < pages
  {
  }

  lemma {:induction false} StopsInside(r: Region, copy: nat)
    requires WellFormed(r) && SignedAsU64(copy) < r.pages
    ensures PageOfRegion(r, U64(r.start + U32(U32(copy) * PAGE)))
  {
    hide U64;
    var off := U32(copy);
    assert off < SIGN_BIT && off < r.pages by {
      CastBelow(copy, r.pages);
    }
    ProductWraps(off);
    NoWrap(r.start + PAGE * (off % SMALL));
  }

  /** Whatever index the walk is given, an address it returns is a page of some region. */
  lemma {:induction false} WalkStaysInside(rs: seq<Region>, copy: nat)
    requires forall i :: 0 <= i < |rs| ==> WellFormed(rs[i])
    ensures RawWalk(rs, copy).Some? ==> exists r :: 0 <= r < |rs| && PageOfRegion(rs[r], RawWalk(rs, copy).value)
  {
    hide U64, U32, SignedAsU64, PageOfRegion;
    if rs == [] {
    } else if SignedAsU64(copy) >= rs[0].pages {
      WalkStaysInside(rs[1..], U64(copy - rs[0].pages));
      if RawWalk(rs, copy).Some? {
        var r :| 0 <= r < |rs[1..]| && PageOfRegion(rs[1..][r], RawWalk(rs, copy).value);
        assert PageOfRegion(rs[r + 1], RawWalk(rs, copy).value);
      }
    } else {
      StopsInside(rs[0], copy);
      assert PageOfRegion(rs[0], RawWalk(rs, copy).value);
    }
  }

  /** A region of more than 2^20 pages makes the walk repeat itself 2^20 pages on. */
  lemma {:induction false} LargeRegionRepeats(rs: seq<Region>, r: nat, off: nat)
    requires forall i :: 0 <= i < |rs| ==> WellFormed(rs[i])
    requires r < |rs| && off + SMALL < rs[r].pages && off + SMALL < SIGN_BIT
    requires FlatBase(rs, r) + off + SMALL < TWO_32
    ensures RawWalk(rs, FlatBase(rs, r) + off + SMALL) == RawWalk(rs, FlatBase(rs, r) + off)
         == Some(rs[r].start + PAGE * (off % SMALL))
  {
    hide RawWalk, Total, FlatBase;
    WalkAtOffset(rs, r, off);
    WalkAtOffset(rs, r, off + SMALL);
    assert (off + SMALL) % SMALL == off % SMALL;
  }

  /** The page with flat index j lies less than 2^20 pages into its region. */
  predicate SmallOffset(rs: seq<Region>, j: nat)
    requires j < Total(rs)
  {
    j - FlatBase(rs, RegionOf(rs, j)) < SMALL
  }

  ghost predicate OffsetsSmall(rs: seq<Region>, n: nat) {
    forall j :: 0 <= j < n && j < Total(rs) ==> SmallOffset(rs, j)
  }

  ghost predicate FaithfulUpTo(rs: seq<Region>, n: nat)
    requires n <= Total(rs)
  {
    forall j :: 0 <= j < n ==> RawWalk(rs, j) == Some(PageAddr(rs, j))
  }

  ghost predicate InjectiveUpTo(rs: seq<Region>, n: nat) {
    forall j, k :: 0 <= j < k < n ==> RawWalk(rs, j) != RawWalk(rs, k)
  }

  lemma {:induction false} RegionOfFlat(rs: seq<Region>, r: nat, off: nat)
    requires r < |rs| && off < rs[r].pages
    ensures RegionOf(rs, FlatBase(rs, r) + off) == r
  {
    if r == 0 {
    } else {
      RegionOfFlat(rs[1..], r - 1, off);
    }
  }

  lemma {:induction false} FlatBaseGrows(rs: seq<Region>, q: nat, r: nat)
    requires q < r < |rs|
    ensures FlatBase(rs, q) + rs[q].pages <= FlatBase(rs, r)
  {
    if q == 0 {
    } else {
      FlatBaseGrows(rs[1..], q - 1, r - 1);
    }
  }

  lemma {:induction false} LargeOffset(rs: seq<Region>, r: nat)
    requires r < |rs|
    ensures rs[r].pages > SMALL ==> !SmallOffset(rs, FlatBase(rs, r) + SMALL)
  {
    hide Total, FlatBase, RegionOf;
    if rs[r].pages > SMALL {
      RegionOfFlat(rs, r, SMALL);
    }
  }

  /** Before an index with small offsets up to it, every whole region is small. */
  lemma {:induction false} SmallBefore(rs: seq<Region>, n: nat, j: nat)
    requires n <= Total(rs) && OffsetsSmall(rs, n) && j < n
    ensures AllSmall(rs[..RegionOf(rs, j)])
  {
    hide Total, FlatBase, RegionOf;
    var r := RegionOf(rs, j);
    forall i | 0 <= i < r
      ensures rs[i].pages <= SMALL
    {
      FlatBaseGrows(rs, i, r);
      LargeOffset(rs, i);
    }
  }

  lemma {:induction false} WalkAtSmallOffset(rs: seq<Region>, n: nat, j: nat)
    requires WellFormedRegions(rs) && n <= Total(rs) && OffsetsSmall(rs, n) && j < n
    ensures RawWalk(rs, j) == Some(PageAddr(rs, j))
  {
    hide Total, FlatBase, RegionOf, RawWalk, PageAddr;
    var r := RegionOf(rs, j);
    var off := j - FlatBase(rs, r);
    assert SmallOffset(rs, j);
    SmallBefore(rs, n, j);
    FlatBaseBound(rs, r);
    PageAddrInRegion(rs, r, off);
    WalkAtOffset(rs, r, off);
    assert off % SMALL == off;
  }

  /** The first region that is too large. */
  lemma {:induction false} FirstLarge(rs: seq<Region>, n: nat) returns (r: nat)
    requires n < |rs| && rs[n].pages > SMALL
    ensures r <= n && AllSmall(rs[..r]) && rs[r].pages > SMALL
  {
    r := 0;
    while rs[r].pages <= SMALL
      invariant r <= n
      invariant AllSmall(rs[..r])
      decreases n - r
    {
      r := r + 1;
    }
  }

  /** Once some offset below n is too large, two indices below n get the same address. */
  lemma {:induction false} RepeatBelow(rs: seq<Region>, n: nat) returns (j: nat)
    requires WellFormedRegions(rs) && n <= Total(rs) && !OffsetsSmall(rs, n)
    ensures j + SMALL < n && RawWalk(rs, j) == RawWalk(rs, j + SMALL)
  {
    hide Total, FlatBase, RegionOf, RawWalk;
    var k: nat :| k < n && k < Total(rs) && !SmallOffset(rs, k);
    var q := RegionOf(rs, k);
    var r := FirstLarge(rs, q);
    if r < q {
      FlatBaseGrows(rs, r, q);
    }
    FlatBaseBound(rs, r);
    LargeRegionRepeats(rs, r, 0);
    j := FlatBase(rs, r);
  }

  lemma {:induction false} PageAddrInjective(rs: seq<Region>, j: nat, k: nat)
    requires WellFormedRegions(rs) && j < Total(rs) && k < Total(rs) && j != k
    ensures PageAddr(rs, j) != PageAddr(rs, k)
  {
    hide PageAddr, Total, FlatBase, RegionOf;
    var q, r := RegionOf(rs, j), RegionOf(rs, k);
    PageAddrInRegion(rs, q, j - FlatBase(rs, q));
    PageAddrInRegion(rs, r, k - FlatBase(rs, r));
  }

  /** Exact condition for the walk over the first n indices: it computes the j-th page for every j, equivalently
      it never gives out one address twice, if and only if no offset below n reaches 2^20 pages. */
  lemma {:induction false} WalkExactUpTo(rs: seq<Region>, n: nat)
    requires WellFormedRegions(rs) && n <= Total(rs)
    ensures FaithfulUpTo(rs, n) <==> OffsetsSmall(rs, n)
    ensures InjectiveUpTo(rs, n) <==> OffsetsSmall(rs, n)
  {
    hide Total, RawWalk, PageAddr, OffsetsSmall;
    if OffsetsSmall(rs, n) {
      forall j: nat | j < n
        ensures RawWalk(rs, j) == Some(PageAddr(rs, j))
      {
        WalkAtSmallOffset(rs, n, j);
      }
      forall j: nat, k: nat | j < k < n
        ensures RawWalk(rs, j) != RawWalk(rs, k)
      {
        PageAddrInjective(rs, j, k);
      }
    } else {
      var j := RepeatBelow(rs, n);
      PageAddrInjective(rs, j, j + SMALL);
      assert RawWalk(rs, j) == RawWalk(rs, j + SMALL);
    }
  }

  /** Over all indices the condition is that no region exceeds 2^20 pages. */
  lemma {:induction false} WalkExactCondition(rs: seq<Region>)
    requires WellFormedRegions(rs)
    ensures FaithfulUpTo(rs, Total(rs)) <==> AllSmall(rs)
    ensures InjectiveUpTo(rs, Total(rs)) <==> AllSmall(rs)
  {
    hide Total, RawWalk, PageAddr, FlatBase, RegionOf, FaithfulUpTo, InjectiveUpTo;
    WalkExactUpTo(rs, Total(rs));
    if AllSmall(rs) {
      assert OffsetsSmall(rs, Total(rs));
    } else {
      var r: nat :| r < |rs| && rs[r].pages > SMALL;
      LargeOffset(rs, r);
    }
  }

  function Flat(rs: seq<Region>, r: nat, off: nat): (j: nat)
    requires r < |rs| && off < rs[r].pages
    ensures j < Total(rs)
  {
    FlatBase(rs, r) + off
  }

  /** Flat indices and region pages correspond one to one: every page of every region is some
      PageAddr, each PageAddr is a page of a region, and no two are equal. */
  lemma {:induction false} FlatIndexBijection(rs: seq<Region>)
    requires WellFormedRegions(rs)
    ensures forall r, off :: 0 <= r < |rs| && 0 <= off < rs[r].pages ==>
              PageAddr(rs, Flat(rs, r, off)) == rs[r].start + PAGE * off
    ensures forall j :: 0 <= j < Total(rs) ==>
              var r := RegionOf(rs, j); rs[r].start <= PageAddr(rs, j) && PageAddr(rs, j) + PAGE <= rs[r].end
    ensures forall j, k :: 0 <= j < k < Total(rs) ==> PageAddr(rs, j) != PageAddr(rs, k)
  {
    hide PageAddr, Total, FlatBase, RegionOf;
    forall r: nat, off: nat | r < |rs| && off < rs[r].pages
      ensures PageAddr(rs, Flat(rs, r, off)) == rs[r].start + PAGE * off
    {
      PageAddrInRegion(rs, r, off);
    }
    forall j: nat | j < Total(rs)
      ensures var r := RegionOf(rs, j); rs[r].start <= PageAddr(rs, j) && PageAddr(rs, j) + PAGE <= rs[r].end
    {
      var r := RegionOf(rs, j);
      PageAddrInRegion(rs, r, j - FlatBase(rs, r));
    }
    forall j: nat, k: nat | j < k < Total(rs)
      ensures PageAddr(rs, j) != PageAddr(rs, k)
    {
      PageAddrInjective(rs, j, k);
    }
  }
}
