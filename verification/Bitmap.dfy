/** The frame bitmap: four flag bits per frame, two frames per byte, the even frame in the high nibble. */
module Bitmap {
  import opened MachineInts
  import opened PhysicalMemory

  const AVAIL: bv8 := 8

  /** !(frame_no & 1) << 2 */
  function Shift(j: nat): (s: bv8)
    ensures s == 0 || s == 4
  {
    if j % 2 == 0 then 4 else 0
  }

  function GetFlags(b: bv8, s: bv8): bv8
    requires s == 0 || s == 4
  {
    (b & (0xF << s)) >> s
  }

  function SetFlags(b: bv8, s: bv8, flags: bv8): bv8
    requires s == 0 || s == 4
  {
    (b & !(0xF << s)) | (flags << s)
  }

  function Nibble(m: Memory, base: nat, j: nat): bv8
    requires base + j / 2 < PHYS_SIZE
  {
    GetFlags(m[base + j / 2], Shift(j))
  }

  function PutNibble(m: Memory, base: nat, j: nat, flags: bv8): Memory
    requires base + j / 2 < PHYS_SIZE
  {
    m[base + j / 2 := SetFlags(m[base + j / 2], Shift(j), flags)]
  }

  predicate Available(m: Memory, base: nat, j: nat)
    requires base + j / 2 < PHYS_SIZE
  {
    Nibble(m, base, j) & AVAIL != 0
  }

  lemma {:induction false} FlagsOfOneByte(b: bv8, s: bv8, t: bv8, flags: bv8)
    requires (s == 0 || s == 4) && (t == 0 || t == 4) && flags < 16
    ensures GetFlags(SetFlags(b, s, flags), t) == if s == t then flags else GetFlags(b, t)
  {
  }

  /** Setting one frame's flags keeps every other frame's, the byte-mate's included. */
  lemma {:induction false} NibbleAfterPut(m: Memory, base: nat, j: nat, flags: bv8, k: nat)
    requires base + j / 2 < PHYS_SIZE && base + k / 2 < PHYS_SIZE && flags < 16
    ensures Nibble(PutNibble(m, base, j, flags), base, k) == if j == k then flags else Nibble(m, base, k)
  {
    FlagsOfOneByte(m[base + j / 2], Shift(j), Shift(k), flags);
  }

  lemma {:induction false} FlagsAsCoded(b: bv8)
    ensures GetFlags(b, 4) == b >> 4 && GetFlags(b, 0) == b & 15
  {
  }

  /** By value: the flags of an even frame are the byte's quotient by 16, those of an odd one its remainder. */
  lemma {:induction false} NibbleByValue(m: Memory, base: nat, j: nat)
    requires base + j / 2 < PHYS_SIZE
    ensures var x := m[base + j / 2] as nat;
      Nibble(m, base, j) as nat == if j % 2 == 0 then x / 16 else x % 16
  {
    var b := m[base + j / 2];
    ByteNibbles(b);
    FlagsAsCoded(b);
  }

  lemma {:induction false} SetAsCoded(b: bv8, flags: bv8)
    requires flags < 16
    ensures SetFlags(b, 4, flags) == (flags << 4) | (b & 15) && SetFlags(b, 0, flags) == ((b >> 4) << 4) | flags
    ensures b >> 4 < 16 && b & 15 < 16
  {
  }

  /** By value: setting flags replaces the quotient for an even frame, the remainder for an odd one. */
  lemma {:induction false} PutNibbleByValue(m: Memory, base: nat, j: nat, flags: bv8)
    requires base + j / 2 < PHYS_SIZE && flags < 16
    ensures var x := m[base + j / 2] as nat;
      PutNibble(m, base, j, flags)[base + j / 2] as nat
      == if j % 2 == 0 then 16 * flags as nat + x % 16 else x / 16 * 16 + flags as nat
    ensures forall a :: 0 <= a < PHYS_SIZE && a != base + j / 2 ==> PutNibble(m, base, j, flags)[a] == m[a]
  {
    var b := m[base + j / 2];
    ByteNibbles(b);
    SetAsCoded(b, flags);
    ByteOfNibbles(flags, b & 15);
    ByteOfNibbles(b >> 4, flags);
  }

  lemma {:induction false} TopFlagBits(n: bv8)
    requires n < 16
    ensures n >> 4 == 0 && (n & 8 != 0 <==> (n >> 3) & 1 == 1) && (n & 7) >> 3 == 0
    ensures (n & 7) & 1 == n & 1 && ((n & 7) >> 1) & 1 == (n >> 1) & 1 && ((n & 7) >> 2) & 1 == (n >> 2) & 1
  {
  }

  lemma {:induction false} TopFlag(n: bv8)
    ensures n < 16 ==> (n & 8 != 0 <==> n as nat >= 8)
    ensures n < 16 && n & 8 != 0 ==> (n & 7) as nat == n as nat - 8
  {
    if n < 16 {
      ByteShifts(n);
      ByteShifts(n & 7);
      LowestBits(n);
      LowestBits(n & 7);
      TopFlagBits(n);
    }
  }

  /** By value: a frame is available when its nibble is at least 8. */
  lemma {:induction false} AvailableByValue(m: Memory, base: nat, j: nat)
    requires base + j / 2 < PHYS_SIZE
    ensures var x := m[base + j / 2] as nat;
      Available(m, base, j) <==> (if j % 2 == 0 then x / 16 else x % 16) >= 8
  {
    NibbleByValue(m, base, j);
    TopFlag(Nibble(m, base, j));
    FlagsAsCoded(m[base + j / 2]);
  }
}
