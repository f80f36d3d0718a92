/** memcpy and memmove of stdlib.c on ranges of one array. */
module MemoryMoves {

  /** Bytes s[src..src + n] placed at dest, everything else kept. */
  function Moved(s: seq<bv8>, dest: nat, src: nat, n: nat): (t: seq<bv8>)
    requires dest + n <= |s| && src + n <= |s|
    ensures |t| == |s|
  {
    s[..dest] + s[src..src + n] + s[dest + n..]
  }

  /** Copying byte by byte from the front, each byte read after the earlier ones were written. */
  function CopiedForward(s: seq<bv8>, dest: nat, src: nat, n: nat): (t: seq<bv8>)
    requires dest + n <= |s| && src + n <= |s|
    ensures |t| == |s|
  {
    if n == 0 then s
    else
      var t := CopiedForward(s, dest, src, n - 1);
      t[dest + n - 1 := t[src + n - 1]]
  }

  lemma {:induction false} MovedNothing(s: seq<bv8>, dest: nat, src: nat, n: nat)
    requires dest + n <= |s| && src + n <= |s|
    ensures Moved(s, dest, src, 0) == s == Moved(s, dest + n, src + n, 0)
    ensures dest == src ==> Moved(s, dest, src, n) == s
  {
  }

  /** Extending a move at its end, when the byte to fetch has not been overwritten. */
  lemma {:induction false} MovedForward(s: seq<bv8>, dest: nat, src: nat, n: nat)
    requires dest + n < |s| && src + n < |s| && (dest <= src || src + n < dest)
    ensures Moved(s, dest, src, n)[dest + n := Moved(s, dest, src, n)[src + n]] == Moved(s, dest, src, n + 1)
  {
    assert Moved(s, dest, src, n)[src + n] == s[src + n];
  }

  /** Extending a move at its start. */
  lemma {:induction false} MovedBackward(s: seq<bv8>, dest: nat, src: nat, n: nat)
    requires dest + n < |s| && src + n < |s| && src < dest
    ensures var t := Moved(s, dest + 1, src + 1, n);
      t[dest := t[src]] == Moved(s, dest, src, n + 1)
  {
    assert Moved(s, dest + 1, src + 1, n)[src] == s[src];
  }

  /** Moves a range onto a possibly overlapping one: forward if it moves down, backward if it moves up. */
  method Memmove(a: array<bv8>, dest: nat, src: nat, n: nat)
    requires dest + n <= a.Length && src + n <= a.Length
    modifies a
    ensures a[..] == Moved(old(a[..]), dest, src, n)
  {
    hide Moved;
    MovedNothing(a[..], dest, src, n);
    if src > dest {
      for i := 0 to n
        invariant a[..] == Moved(old(a[..]), dest, src, i)
      {
        MovedForward(old(a[..]), dest, src, i);
        a[dest + i] := a[src + i];
      }
    } else if src < dest {
      for i := n downto 0
        invariant a[..] == Moved(old(a[..]), dest + i, src + i, n - i)
      {
        MovedBackward(old(a[..]), dest + i, src + i, n - i - 1);
        a[dest + i] := a[src + i];
      }
    }
  }

  method Memcpy(a: array<bv8>, dest: nat, src: nat, n: nat)
    requires dest + n <= a.Length && src + n <= a.Length
    modifies a
    ensures a[..] == CopiedForward(old(a[..]), dest, src, n)
  {
    for i := 0 to n
      invariant a[..] == CopiedForward(old(a[..]), dest, src, i)
    {
      a[dest + i] := a[src + i];
    }
  }

  /** A forward copy onto a range that starts later repeats itself: every byte written equals the byte
      dest - src before it, so an overlapped source is lost. */
  lemma {:induction false} ForwardCopyRepeats(s: seq<bv8>, dest: nat, src: nat, n: nat)
    requires dest + n <= |s| && src < dest
    ensures var t := CopiedForward(s, dest, src, n);
      && (forall k :: dest <= k < dest + n ==> t[k] == t[k - (dest - src)])
      && (forall k :: 0 <= k < |s| && !(dest <= k < dest + n) ==> t[k] == s[k])
  {
    if n == 0 {
    } else {
      ForwardCopyRepeats(s, dest, src, n - 1);
      var t := CopiedForward(s, dest, src, n);
      forall k | dest <= k < dest + n
        ensures t[k] == t[k - (dest - src)]
      {
        assert CopiedForward(s, dest, src, n - 1)[k - (dest - src)] == t[k - (dest - src)];
      }
    }
  }

  lemma {:induction false} ForwardCopyApart(s: seq<bv8>, dest: nat, src: nat, n: nat)
    requires dest + n <= |s| && src + n <= |s| && (dest <= src || src + n <= dest)
    ensures CopiedForward(s, dest, src, n) == Moved(s, dest, src, n)
  {
    hide Moved;
    MovedNothing(s, dest, src, n);
    if n == 0 {
    } else {
      ForwardCopyApart(s, dest, src, n - 1);
      MovedForward(s, dest, src, n - 1);
    }
  }

  lemma {:induction false} OverlapWitness(size: nat, dest: nat, src: nat, n: nat) returns (s: seq<bv8>)
    requires dest + n <= size && src < dest < src + n
    ensures |s| == size && CopiedForward(s, dest, src, n) != Moved(s, dest, src, n)
  {
    hide CopiedForward;
    var gap := dest - src;
    s := seq(size, i => if i == dest then 1 else 0);
    ForwardCopyRepeats(s, dest, src, n);
    var t := CopiedForward(s, dest, src, n);
    assert dest + gap - (dest - src) == dest && dest - (dest - src) == src;
    assert t[src] == s[src];
    assert t[dest] == t[src];
    assert t[dest + gap] == t[dest];
    assert Moved(s, dest, src, n)[dest + gap] == s[src + gap];
  }

  /** memcpy does memmove's job on every content exactly when the destination does not start inside the source. */
  lemma {:induction false} MemcpyMovesExactly(size: nat, dest: nat, src: nat, n: nat)
    requires dest + n <= size && src + n <= size
    ensures (forall s: seq<bv8> :: |s| == size ==> CopiedForward(s, dest, src, n) == Moved(s, dest, src, n))
       <==> (dest <= src || src + n <= dest)
  {
    hide CopiedForward, Moved;
    if dest <= src || src + n <= dest {
      forall s: seq<bv8> | |s| == size
        ensures CopiedForward(s, dest, src, n) == Moved(s, dest, src, n)
      {
        ForwardCopyApart(s, dest, src, n);
      }
    } else {
      var s := OverlapWitness(size, dest, src, n);
    }
  }
}
