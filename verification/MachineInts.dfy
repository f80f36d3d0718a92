/** Fixed-width integers, address arithmetic and the two outcomes of kernel code:
    it either carries on with a value or stops for good in a failed CHASSERT. */
module MachineInts {

  const PAGE: nat := 4096
  const TWO_64: nat := 0x1_0000_0000_0000_0000
  const TWO_32: nat := 0x1_0000_0000
  const KERNEL_VMA: nat := 0xffff_ffff_8000_0000
  const MINUS_ONE: nat := 0xffff_ffff_ffff_ffff

  /** Which CHASSERT stopped the processor. */
  datatype HaltSite = TooManyRegions | NoBitmapHome | ScanExhausted | RegionsExhausted

  /** `Halt` is terminal: hcf() never returns, so no state follows it. */
  datatype Outcome<+T> = Halt(site: HaltSite) | Done(value: T)

  /** Conversion to uint64_t. */
  function U64(x: int): (r: nat)
    ensures r < TWO_64
  {
    x % TWO_64
  }

  /** Conversion to unsigned (32 bits). */
  function U32(x: int): (r: nat)
    ensures r < TWO_32
  {
    x % TWO_32
  }

  function P2v(hhdm: nat, paddr: nat): nat {
    U64(paddr + hhdm)
  }

  function V2p(hhdm: nat, vaddr: nat): nat {
    U64(vaddr - hhdm)
  }

  lemma {:induction false} NoWrap(x: nat)
    requires x < TWO_64
    ensures U64(x) == x
  {
  }

  lemma {:induction false} WrapShift(x: int, q: int)
    ensures U64(x + TWO_64 * q) == U64(x)
  {
    var y := x + TWO_64 * q;
    assert y == TWO_64 * (x / TWO_64 + q) + U64(x);
    assert y / TWO_64 == x / TWO_64 + q;
  }

  lemma {:induction false} WrapTwice(a: int, b: int)
    ensures U64(U64(a) + b) == U64(a + b)
  {
    var q := a / TWO_64;
    assert a == U64(a) + TWO_64 * q;
    WrapShift(U64(a) + b, q);
  }

  /** A pointer into the direct map, advanced by k bytes, still names the physical byte k further on. */
  lemma {:induction false} DirectMapRoundTrip(hhdm: nat, paddr: nat, k: nat)
    requires hhdm < TWO_64 && paddr + k < TWO_64
    ensures V2p(hhdm, U64(P2v(hhdm, paddr) + k)) == paddr + k
    ensures V2p(hhdm, P2v(hhdm, paddr)) == paddr
  {
    hide U64;
    WrapTwice(paddr + hhdm, k);
    WrapTwice(paddr + hhdm + k, 0 - hhdm);
    WrapTwice(paddr + hhdm, 0 - hhdm);
    NoWrap(paddr + k);
    NoWrap(paddr);
  }

  function PgRoundDown(va: nat): (r: nat)
    ensures r % PAGE == 0 && r <= va < r + PAGE
  {
    va - va % PAGE
  }

  /** In the last page below 2^64 the addition wraps and the result is 0. */
  function PgRoundUp(va: nat): (r: nat)
    requires va < TWO_64
    ensures r % PAGE == 0
    ensures va + PAGE <= TWO_64 ==> va <= r < va + PAGE
    ensures va + PAGE > TWO_64 ==> r == 0
  {
    PgRoundDown(U64(va + PAGE - 1))
  }

  /** The & operator on unsigned numbers, bit by bit. */
  function BitAnd(x: nat, y: nat): nat
    decreases x
  {
    if x == 0 then 0 else 2 * BitAnd(x / 2, y / 2) + (if x % 2 == 1 && y % 2 == 1 then 1 else 0)
  }

  function Pow2(k: nat): (p: nat)
    ensures p > 0
  {
    if k == 0 then 1 else 2 * Pow2(k - 1)
  }

  lemma {:induction false} ProductSigns(d: nat, z: int)
    ensures z >= 1 ==> d * z >= d
    ensures z <= -1 ==> d * z <= 0 - d
  {
    assert z >= 1 ==> d * z == d + d * (z - 1);
    assert z <= -1 ==> d * z == d * (z + 1) - d;
  }

  lemma {:induction false} QuotientUnique(x: nat, d: nat, q: nat, r: nat)
    requires 0 < d && r < d && x == d * q + r
    ensures x / d == q && x % d == r
  {
    var z := x / d - q;
    assert d * z == r - x % d;
    ProductSigns(d, z);
  }

  lemma {:induction false} ModuloDoubled(x: nat, p: nat)
    requires 0 < p
    ensures x % (2 * p) == x % 2 + 2 * (x / 2 % p)
  {
    var q, r := x / 2 / p, x / 2 % p;
    assert x / 2 == p * q + r;
    assert x == 2 * p * q + (x % 2 + 2 * r);
    QuotientUnique(x, 2 * p, q, x % 2 + 2 * r);
  }

  lemma {:induction false} AndStep(x: nat, y: nat, b: nat)
    requires b < 2
    ensures BitAnd(x, 2 * y + b) == 2 * BitAnd(x / 2, y) + x % 2 * b
  {
    assert (2 * y + b) / 2 == y && (2 * y + b) % 2 == b;
  }

  lemma {:induction false} FullRange(x: nat, p: nat)
    requires x < p
    ensures x % p == x && x % 1 == 0
  {
  }

  lemma {:induction false} NoBits(x: nat)
    ensures BitAnd(x, 0) == 0
  {
    if x == 0 {
    } else {
      NoBits(x / 2);
    }
  }

  /** Masking with k low ones keeps the remainder modulo 2^k. */
  lemma {:induction false} LowMask(x: nat, k: nat)
    ensures BitAnd(x, Pow2(k) - 1) == x % Pow2(k)
    decreases k
  {
    if k == 0 {
      NoBits(x);
    } else {
      hide BitAnd;
      var p := Pow2(k - 1);
      LowMask(x / 2, k - 1);
      ModuloDoubled(x, p);
      AndStep(x, p - 1, 1);
    }
  }

  /** Masking an n-bit number with ones from bit k up removes the remainder modulo 2^k. */
  lemma {:induction false} HighMask(x: nat, k: nat, n: nat)
    requires k <= n && x < Pow2(n)
    ensures Pow2(k) <= Pow2(n) && BitAnd(x, Pow2(n) - Pow2(k)) == x - x % Pow2(k)
    decreases k
  {
    hide BitAnd;
    if k == 0 {
      LowMask(x, n);
      FullRange(x, Pow2(n));
    } else {
      var p, w := Pow2(k - 1), Pow2(n - 1);
      HighMask(x / 2, k - 1, n - 1);
      ModuloDoubled(x, p);
      AndStep(x, w - p, 0);
    }
  }

  lemma {:induction false} PowerStep(k: nat)
    ensures Pow2(k + 8) == 256 * Pow2(k)
  {
    assert Pow2(k + 1) == 2 * Pow2(k) && Pow2(k + 2) == 2 * Pow2(k + 1) && Pow2(k + 3) == 2 * Pow2(k + 2);
    assert Pow2(k + 4) == 2 * Pow2(k + 3) && Pow2(k + 5) == 2 * Pow2(k + 4) && Pow2(k + 6) == 2 * Pow2(k + 5);
    assert Pow2(k + 7) == 2 * Pow2(k + 6) && Pow2(k + 8) == 2 * Pow2(k + 7);
  }

  lemma {:induction false} PowersOfTwo()
    ensures Pow2(9) == 512 && Pow2(12) == 4096 && Pow2(64) == TWO_64
  {
    PowerStep(0);
    PowerStep(8);
    PowerStep(16);
    PowerStep(24);
    PowerStep(32);
    PowerStep(40);
    PowerStep(48);
    PowerStep(56);
    assert Pow2(9) == 2 * Pow2(8);
    assert Pow2(10) == 2 * Pow2(9) && Pow2(11) == 2 * Pow2(10) && Pow2(12) == 2 * Pow2(11);
  }

  /** The mask of pg_round_down, 4095 complemented in 64 bits. */
  lemma {:induction false} RoundDownIsMask(va: nat)
    requires va < TWO_64
    ensures BitAnd(va, 0xffff_ffff_ffff_f000) == PgRoundDown(va)
  {
    PowersOfTwo();
    HighMask(va, 12, 64);
  }

  /** The mask of the index macros. */
  lemma {:induction false} IndexMask(x: nat)
    ensures BitAnd(x, 0x1ff) == x % 512
  {
    PowersOfTwo();
    LowMask(x, 9);
  }

  function CeilDiv(a: nat, b: nat): (r: nat)
    requires b > 0
    ensures a <= b * r < a + b
  {
    (a + b - 1) / b
  }

  lemma {:induction false} DoubleByte(h: bv8, c: bv8)
    requires h < 128 && c < 2
    ensures ((h << 1) | c) as nat == 2 * h as nat + c as nat && c as nat < 2
  {
  }

  lemma {:induction false} HalfByte(b: bv8)
    ensures (b >> 1) as nat == b as nat / 2 && (b & 1) as nat == b as nat % 2
  {
    var h := b >> 1;
    assert b == (h << 1) | (b & 1) && h < 128;
    DoubleByte(h, b & 1);
  }

  lemma {:induction false} ShiftsCompose(b: bv8)
    ensures (b >> 1) >> 1 == b >> 2 && (b >> 2) >> 1 == b >> 3 && (b >> 3) >> 1 == b >> 4
    ensures (b >> 4) >> 1 == b >> 5 && (b >> 5) >> 1 == b >> 6 && (b >> 6) >> 1 == b >> 7
  {
  }

  /** Shifting a byte to the right divides its value. */
  lemma {:induction false} ByteShifts(b: bv8)
    ensures (b >> 1) as nat == b as nat / 2 && (b >> 2) as nat == b as nat / 4 && (b >> 3) as nat == b as nat / 8
    ensures (b >> 4) as nat == b as nat / 16 && (b >> 5) as nat == b as nat / 32 && (b >> 6) as nat == b as nat / 64
    ensures (b >> 7) as nat == b as nat / 128
  {
    HalfByte(b);
    HalfByte(b >> 1);
    HalfByte(b >> 2);
    HalfByte(b >> 3);
    HalfByte(b >> 4);
    HalfByte(b >> 5);
    HalfByte(b >> 6);
    ShiftsCompose(b);
  }

  lemma {:induction false} NibbleBits(b: bv8)
    ensures var lo := b & 15;
      && lo & 1 == b & 1 && (lo >> 1) & 1 == (b >> 1) & 1 && (lo >> 2) & 1 == (b >> 2) & 1
      && (lo >> 3) & 1 == (b >> 3) & 1 && lo >> 4 == 0
  {
  }

  lemma {:induction false} LowestBits(b: bv8)
    ensures (b & 1) as nat == b as nat % 2 && ((b >> 1) & 1) as nat == b as nat / 2 % 2
    ensures ((b >> 2) & 1) as nat == b as nat / 4 % 2 && ((b >> 3) & 1) as nat == b as nat / 8 % 2
  {
    ByteShifts(b);
    HalfByte(b);
    HalfByte(b >> 1);
    HalfByte(b >> 2);
    HalfByte(b >> 3);
  }

  /** The two nibbles of a byte are its quotient and remainder by 16. */
  lemma {:induction false} ByteNibbles(b: bv8)
    ensures (b >> 4) as nat == b as nat / 16 && (b & 15) as nat == b as nat % 16
  {
    NibbleBits(b);
    ByteShifts(b);
    ByteShifts(b & 15);
    LowestBits(b);
    LowestBits(b & 15);
  }

  lemma {:induction false} ByteOfNibbles(h: bv8, l: bv8)
    requires h < 16 && l < 16
    ensures ((h << 4) | l) as nat == 16 * h as nat + l as nat && h as nat < 16 && l as nat < 16
  {
    var b := (h << 4) | l;
    assert b >> 4 == h && b & 15 == l;
    ByteNibbles(b);
  }
}
