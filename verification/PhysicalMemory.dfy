/** One flat physical memory, byte by byte. The frame bitmap and every page table live in it. */
module PhysicalMemory {
  import opened MachineInts

  /** The 52-bit physical address space. */
  const PHYS_SIZE: nat := 0x10_0000_0000_0000
  const FRAMES: nat := 0x100_0000_0000

  type Memory = m: seq<bv8> | |m| == PHYS_SIZE witness seq(PHYS_SIZE, _ => 0)

  function ByteValue(b: bv8): (x: nat)
    ensures x < 256
  {
    b as nat
  }

  lemma {:induction false} AppendBit(b: bv8, c: bool)
    requires ByteValue(b) < 128
    ensures ByteValue((b << 1) | (if c then 1 else 0)) == 2 * ByteValue(b) + if c then 1 else 0
  {
  }

  /** The byte with value x, built from its binary digits. */
  function ByteOf(x: nat): (b: bv8)
    requires x < 256
    ensures ByteValue(b) == x
  {
    if x == 0 then 0
    else
      AppendBit(ByteOf(x / 2), x % 2 == 1);
      (ByteOf(x / 2) << 1) | (if x % 2 == 1 then 1 else 0)
  }

  lemma {:induction false} ByteInjective(b: bv8, c: bv8)
    requires ByteValue(b) == ByteValue(c)
    ensures b == c
  {
  }

  /** Little-endian value of a byte sequence. */
  function FromBytes(s: seq<bv8>): nat {
    if s == [] then 0 else ByteValue(s[0]) + 256 * FromBytes(s[1..])
  }

  function ToBytes(w: nat, n: nat): (s: seq<bv8>)
    ensures |s| == n
  {
    if n == 0 then [] else [ByteOf(w % 256)] + ToBytes(w / 256, n - 1)
  }

  function Pow256(n: nat): (p: nat)
    ensures p > 0
  {
    if n == 0 then 1 else 256 * Pow256(n - 1)
  }

  lemma {:induction false} BytesRoundTrip(w: nat, n: nat)
    requires w < Pow256(n)
    ensures FromBytes(ToBytes(w, n)) == w
  {
    hide ByteValue, ByteOf;
    if n == 0 {
    } else {
      BytesRoundTrip(w / 256, n - 1);
      assert ToBytes(w, n)[1..] == ToBytes(w / 256, n - 1);
    }
  }

  lemma {:induction false} FromBytesBound(s: seq<bv8>)
    ensures FromBytes(s) < Pow256(|s|)
  {
    if s == [] {
    } else {
      FromBytesBound(s[1..]);
    }
  }

  lemma {:induction false} FromZeroBytes(s: seq<bv8>)
    requires forall k :: 0 <= k < |s| ==> s[k] == 0
    ensures FromBytes(s) == 0
  {
    if s == [] {
    } else {
      FromZeroBytes(s[1..]);
    }
  }

  lemma {:induction false} Pow256Eight()
    ensures Pow256(8) == TWO_64
  {
    assert Pow256(4) == 256 * 256 * 256 * 256;
    assert Pow256(6) == 256 * 256 * Pow256(4);
  }

  /** The 64-bit word at byte address a. */
  function Load64(m: Memory, a: nat): (w: nat)
    requires a + 8 <= PHYS_SIZE
    ensures w < TWO_64
  {
    FromBytesBound(m[a..a + 8]);
    Pow256Eight();
    FromBytes(m[a..a + 8])
  }

  lemma {:induction false} FromFourBytes(s: seq<bv8>)
    requires |s| >= 4
    ensures FromBytes(s)
         == s[0] as nat + 0x100 * s[1] as nat + 0x1_0000 * s[2] as nat + 0x100_0000 * s[3] as nat
            + 0x1_0000_0000 * FromBytes(s[4..])
  {
    assert s[1..][1..] == s[2..] && s[2..][1..] == s[3..] && s[3..][1..] == s[4..];
    assert FromBytes(s) == ByteValue(s[0]) + 256 * FromBytes(s[1..]);
    assert FromBytes(s[1..]) == ByteValue(s[1]) + 256 * FromBytes(s[2..]);
    assert FromBytes(s[2..]) == ByteValue(s[2]) + 256 * FromBytes(s[3..]);
    assert FromBytes(s[3..]) == ByteValue(s[3]) + 256 * FromBytes(s[4..]);
  }

  /** The byte at the lowest address counts least. */
  lemma {:induction false} LittleEndian(m: Memory, a: nat)
    requires a + 8 <= PHYS_SIZE
    ensures Load64(m, a)
         == m[a] as nat + 0x100 * m[a + 1] as nat + 0x1_0000 * m[a + 2] as nat + 0x100_0000 * m[a + 3] as nat
            + 0x1_0000_0000 * m[a + 4] as nat + 0x100_0000_0000 * m[a + 5] as nat
            + 0x1_0000_0000_0000 * m[a + 6] as nat + 0x100_0000_0000_0000 * m[a + 7] as nat
  {
    var s := m[a..a + 8];
    FromFourBytes(s);
    FromFourBytes(s[4..]);
    assert s[4..][4..] == [];
  }

  function Store64(m: Memory, a: nat, w: nat): Memory
    requires a + 8 <= PHYS_SIZE
  {
    m[..a] + ToBytes(w, 8) + m[a + 8..]
  }

  /** memset: bytes a to a + n become b. */
  function Fill(m: Memory, a: nat, n: nat, b: bv8): Memory
    requires a + n <= PHYS_SIZE
  {
    m[..a] + seq(n, _ => b) + m[a + n..]
  }

  lemma {:induction false} LoadAfterStore(m: Memory, a: nat, w: nat, b: nat)
    requires a + 8 <= PHYS_SIZE && b + 8 <= PHYS_SIZE && w < TWO_64
    ensures a == b ==> Load64(Store64(m, a, w), b) == w
    ensures (a + 8 <= b || b + 8 <= a) ==> Load64(Store64(m, a, w), b) == Load64(m, b)
  {
    var m' := Store64(m, a, w);
    if a == b {
      Pow256Eight();
      BytesRoundTrip(w, 8);
      assert m'[a..a + 8] == ToBytes(w, 8);
    } else if a + 8 <= b || b + 8 <= a {
      assert m'[b..b + 8] == m[b..b + 8];
    }
  }

  lemma {:induction false} StoreTwice(m: Memory, a: nat, v: nat, w: nat)
    requires a + 8 <= PHYS_SIZE
    ensures Store64(Store64(m, a, v), a, w) == Store64(m, a, w)
  {
  }

  lemma {:induction false} LowByte(b: nat, x: nat)
    requires b < 256
    ensures (b + 256 * x) % 256 == b && (b + 256 * x) / 256 == x
  {
  }

  lemma {:induction false} BytesOfValue(s: seq<bv8>)
    ensures ToBytes(FromBytes(s), |s|) == s
  {
    hide ByteValue, ByteOf;
    if s == [] {
    } else {
      ByteInjective(ByteOf(ByteValue(s[0])), s[0]);
      BytesOfValue(s[1..]);
      LowByte(ByteValue(s[0]), FromBytes(s[1..]));
      assert FromBytes(s) == ByteValue(s[0]) + 256 * FromBytes(s[1..]);
    }
  }

  /** Storing the word that is there already changes nothing. */
  lemma {:induction false} StoreLoaded(m: Memory, a: nat)
    requires a + 8 <= PHYS_SIZE
    ensures Store64(m, a, Load64(m, a)) == m
  {
    BytesOfValue(m[a..a + 8]);
    assert m == m[..a] + m[a..a + 8] + m[a + 8..];
  }

  lemma {:induction false} LoadAfterFill(m: Memory, a: nat, n: nat, b: nat)
    requires a + n <= PHYS_SIZE && b + 8 <= PHYS_SIZE
    ensures a <= b && b + 8 <= a + n ==> Load64(Fill(m, a, n, 0), b) == 0
    ensures (a + n <= b || b + 8 <= a) ==> Load64(Fill(m, a, n, 0), b) == Load64(m, b)
  {
    var m' := Fill(m, a, n, 0);
    if a <= b && b + 8 <= a + n {
      FromZeroBytes(m'[b..b + 8]);
    }
    if a + n <= b || b + 8 <= a {
      assert m'[b..b + 8] == m[b..b + 8];
    }
  }

  lemma {:induction false} LoadAfterByteUpdate(m: Memory, a: nat, x: bv8, b: nat)
    requires a < PHYS_SIZE && b + 8 <= PHYS_SIZE
    requires a < b || b + 8 <= a
    ensures Load64(m[a := x], b) == Load64(m, b)
  {
    assert m[a := x][b..b + 8] == m[b..b + 8];
  }

  method LoadWord(mem: array<bv8>, a: nat) returns (w: nat)
    requires mem.Length == PHYS_SIZE && a + 8 <= PHYS_SIZE
    ensures w == Load64(mem[..], a)
  {
    assert mem[..][a..a + 8] == mem[a..a + 8];
    return FromBytes(mem[a..a + 8]);
  }

  method StoreWord(mem: array<bv8>, a: nat, w: nat)
    requires mem.Length == PHYS_SIZE && a + 8 <= PHYS_SIZE
    modifies mem
    ensures mem[..] == Store64(old(mem[..]), a, w)
  {
    hide ToBytes;
    var bytes := ToBytes(w, 8);
    forall k | 0 <= k < 8 {
      mem[a + k] := bytes[k];
    }
  }
}
