/** The address space as a finite map: which frame holds each table, what each page maps to, and how many
    frames have been handed out. Counting arguments live here, away from memory. */
module AbstractPaging {
  import opened MachineInts
  import opened PhysicalMemory
  import opened Entries
  import opened Regions
  import opened BootMap
  import opened FrameAllocation
  import opened PageTables

  /** `taken` names the frames that other clients of the allocator own. */
  datatype Space = Space(tables: Tables, pages: Pages, index: nat, taken: set<nat>)

  type FrameNumber = f: nat | f < FRAMES
  type PageOffset = o: nat | o < PAGE

  /** A call of map_page, another client taking a frame, or one writing a byte into a frame. */
  datatype Op = Map(vaddr: nat, paddr: nat, supervisor: bool, writable: bool, noExecute: bool, writeThrough: bool)
              | Take(zeroed: bool)
              | Write(frame: FrameNumber, offset: PageOffset, value: bv8)

  function LeafOf(op: Op): Leaf
    requires op.Map?
  {
    Leaf(op.paddr / PAGE % TWO_40, op.writable, op.supervisor, op.writeThrough, op.noExecute)
  }

  /** The table for node n, placed in the next frame if it does not exist yet. */
  function Ensure(l: Layout, a: Space, n: Node): Outcome<Space>
    requires Sound(l)
  {
    if n in a.tables then Done(a)
    else if a.index < Total(l.regions) then
      Done(a.(tables := a.tables[n := PageFrame(l, a.index)], index := a.index + 1))
    else Halt(RegionsExhausted)
  }

  function MapTables(l: Layout, a: Space, v: VPage): Outcome<Space>
    requires Sound(l)
  {
    match Ensure(l, a, Pdpt(v.i4))
    case Halt(site) => Halt(site)
    case Done(a3) =>
      match Ensure(l, a3, Pd(v.i4, v.i3))
      case Halt(site) => Halt(site)
      case Done(a2) => Ensure(l, a2, TableOf(v))
  }

  function Step(l: Layout, a: Space, op: Op): Outcome<Space>
    requires Sound(l)
  {
    match op
    case Take(_) =>
      if a.index < Total(l.regions)
      then Done(a.(index := a.index + 1, taken := a.taken + {PageFrame(l, a.index)}))
      else Halt(RegionsExhausted)
    case Write(_, _, _) => Done(a)
    case Map(vaddr, _, _, _, _, _) =>
      match MapTables(l, a, PageOf(vaddr))
      case Halt(site) => Halt(site)
      case Done(a') => Done(a'.(pages := a'.pages[PageOf(vaddr) := LeafOf(op)]))
  }

  function Run(l: Layout, a: Space, ops: seq<Op>): Outcome<Space>
    requires Sound(l)
    decreases |ops|
  {
    if ops == [] then Done(a)
    else match Step(l, a, ops[0])
      case Halt(site) => Halt(site)
      case Done(a') => Run(l, a', ops[1..])
  }

  /** Every write goes into a frame that its client has taken by then. */
  ghost predicate Behaved(l: Layout, a: Space, ops: seq<Op>)
    requires Sound(l)
    decreases |ops|
  {
    ops == [] ||
    ((ops[0].Write? ==> ops[0].frame in a.taken)
     && (Step(l, a, ops[0]).Done? ==> Behaved(l, Step(l, a, ops[0]).value, ops[1..])))
  }

  function Path(v: VPage): set<Node> {
    {Pml4, Pdpt(v.i4), Pd(v.i4, v.i3), TableOf(v)}
  }

  function Pdpts(K: set<VPage>): set<Node> {
    set v | v in K :: Pdpt(v.i4)
  }

  function Pds(K: set<VPage>): set<Node> {
    set v | v in K :: Pd(v.i4, v.i3)
  }

  function Pts(K: set<VPage>): set<Node> {
    set v | v in K :: TableOf(v)
  }

  /** The tables that mapping the pages of K takes. */
  function NodesOf(K: set<VPage>): set<Node> {
    {Pml4} + Pdpts(K) + Pds(K) + Pts(K)
  }

  function PagesOf(ops: seq<Op>): set<VPage> {
    if ops == [] then {}
    else (if ops[0].Map? then {PageOf(ops[0].vaddr)} else {}) + PagesOf(ops[1..])
  }

  function TakesOf(ops: seq<Op>): nat {
    if ops == [] then 0 else (if ops[0].Take? then 1 else 0) + TakesOf(ops[1..])
  }

  /** The plain finite map after the operations, whatever the tables do: the latest request for a page wins. */
  function Updated(pages: Pages, ops: seq<Op>): Pages
    decreases |ops|
  {
    if ops == [] then pages
    else Updated(if ops[0].Map? then pages[PageOf(ops[0].vaddr) := LeafOf(ops[0])] else pages, ops[1..])
  }

  lemma {:induction false} EnsureCount(l: Layout, a: Space, n: Node)
    requires Sound(l) && a.index <= Total(l.regions)
    ensures var need := if n in a.tables then 0 else 1;
      && (Ensure(l, a, n).Done? <==> a.index + need <= Total(l.regions))
      && (Ensure(l, a, n).Done? ==> var b := Ensure(l, a, n).value;
            b.tables.Keys == a.tables.Keys + {n} && b.index == a.index + need && b.pages == a.pages
            && b.taken == a.taken)
  {
  }

  lemma {:induction false} PathAdded(v: VPage, keys: set<Node>)
    requires Pml4 in keys
    ensures keys + {Pdpt(v.i4)} + {Pd(v.i4, v.i3)} + {TableOf(v)} == keys + Path(v)
  {
  }

  lemma {:induction false} PathLevels(v: VPage)
    ensures TableOf(v).Pt?
  {
  }

  lemma {:induction false} MissingOne(n: Node, keys: set<Node>)
    ensures |{n} - keys| == if n in keys then 0 else 1
  {
    if n in keys {
      assert {n} - keys == {};
    } else {
      assert {n} - keys == {n};
    }
  }

  lemma {:induction false} PathMissing(v: VPage, keys: set<Node>)
    requires Pml4 in keys
    ensures |Path(v) - keys| == (if Pdpt(v.i4) in keys then 0 else 1) + (if Pd(v.i4, v.i3) in keys then 0 else 1)
                              + if TableOf(v) in keys then 0 else 1
  {
    hide TableOf;
    var n3, n2, n1 := Pdpt(v.i4), Pd(v.i4, v.i3), TableOf(v);
    assert n1.Pt? by {
      PathLevels(v);
    }
    assert Path(v) - keys == ({n3} - keys) + (({n2} - keys) + ({n1} - keys));
    assert |({n2} - keys) + ({n1} - keys)| == |{n2} - keys| + |{n1} - keys|;
    MissingOne(n3, keys);
    MissingOne(n2, keys);
    MissingOne(n1, keys);
  }

  /** One call of map_page takes as many frames as its path has missing tables, and fails only for want of them. */
  lemma {:induction false} MapTablesCount(l: Layout, a: Space, v: VPage)
    requires Sound(l) && a.index <= Total(l.regions) && Pml4 in a.tables
    ensures var need := |Path(v) - a.tables.Keys|;
      && (MapTables(l, a, v).Done? <==> a.index + need <= Total(l.regions))
      && (MapTables(l, a, v).Done? ==> var b := MapTables(l, a, v).value;
            b.tables.Keys == a.tables.Keys + Path(v) && b.index == a.index + need && b.pages == a.pages
            && b.taken == a.taken)
  {
    hide Ensure, Sound, Total, Path;
    var n3, n2, n1 := Pdpt(v.i4), Pd(v.i4, v.i3), TableOf(v);
    PathMissing(v, a.tables.Keys);
    EnsureCount(l, a, n3);
    if Ensure(l, a, n3).Done? {
      var a3 := Ensure(l, a, n3).value;
      assert n2 in a3.tables.Keys <==> n2 in a.tables.Keys;
      EnsureCount(l, a3, n2);
      if Ensure(l, a3, n2).Done? {
        var a2 := Ensure(l, a3, n2).value;
        assert n1 in a2.tables.Keys <==> n1 in a.tables.Keys;
        EnsureCount(l, a2, n1);
        if Ensure(l, a2, n1).Done? {
          PathAdded(v, a.tables.Keys);
        }
      }
    }
  }

  lemma {:induction false} OnePage(v: VPage)
    ensures NodesOf({v}) == Path(v)
  {
    assert Pdpts({v}) == {Pdpt(v.i4)};
    assert Pds({v}) == {Pd(v.i4, v.i3)};
    assert Pts({v}) == {TableOf(v)};
  }

  lemma {:induction false} OneOp(op: Op, pages: Pages)
    ensures op.Map? ==>
      && PagesOf([op]) == {PageOf(op.vaddr)} && TakesOf([op]) == 0
      && NodesOf(PagesOf([op])) == Path(PageOf(op.vaddr))
      && Updated(pages, [op]) == pages[PageOf(op.vaddr) := LeafOf(op)]
    ensures !op.Map? ==>
      PagesOf([op]) == {} && TakesOf([op]) == (if op.Take? then 1 else 0) && Updated(pages, [op]) == pages
  {
    hide PageOf, LeafOf, NodesOf;
    assert [op][1..] == [];
    if op.Map? {
      assert PagesOf([op]) == {PageOf(op.vaddr)};
      OnePage(PageOf(op.vaddr));
    }
  }

  lemma {:induction false} NoPages(keys: set<Node>)
    requires Pml4 in keys
    ensures |NodesOf({}) - keys| == 0 && keys + NodesOf({}) == keys
  {
    assert NodesOf({}) == {Pml4};
    assert NodesOf({}) - keys == {};
  }

  lemma {:induction false} StepCount(l: Layout, a: Space, op: Op)
    requires Sound(l) && a.index <= Total(l.regions) && Pml4 in a.tables
    ensures var need := |NodesOf(PagesOf([op])) - a.tables.Keys| + TakesOf([op]);
      && (Step(l, a, op).Done? <==> a.index + need <= Total(l.regions))
      && (Step(l, a, op).Done? ==> var b := Step(l, a, op).value;
            && b.tables.Keys == a.tables.Keys + NodesOf(PagesOf([op])) && b.index == a.index + need
            && b.pages == Updated(a.pages, [op]))
  {
    hide MapTables, Sound, Total, NodesOf, Path, PagesOf, TakesOf, Updated, PageOf, LeafOf, PageFrame;
    OneOp(op, a.pages);
    if op.Map? {
      MapTablesCount(l, a, PageOf(op.vaddr));
    } else {
      NoPages(a.tables.Keys);
    }
  }

  lemma {:induction false} NodesOfUnion(J: set<VPage>, K: set<VPage>)
    ensures NodesOf(J + K) == NodesOf(J) + NodesOf(K)
  {
  }

  lemma {:induction false} UnionSize(A: set<Node>, B: set<Node>, keys: set<Node>)
    ensures |A - keys| + |B - (keys + A)| == |A + B - keys|
  {
    assert A + B - keys == (A - keys) + (B - (keys + A));
    assert (A - keys) !! (B - (keys + A));
  }

  lemma {:induction false} SplitOps(ops: seq<Op>)
    requires ops != []
    ensures PagesOf(ops) == PagesOf([ops[0]]) + PagesOf(ops[1..])
    ensures TakesOf(ops) == TakesOf([ops[0]]) + TakesOf(ops[1..])
    ensures forall pages :: Updated(pages, ops) == Updated(Updated(pages, [ops[0]]), ops[1..])
  {
    assert [ops[0]][1..] == [];
  }

  /** A whole run: it succeeds if and only if the frames left cover the distinct tables its pages need plus the
      frames other clients take, whatever the order and however often pages repeat; the frames consumed are
      exactly those; and the pages end up as the finite map says. */
  lemma {:induction false} RunCount(l: Layout, a: Space, ops: seq<Op>)
    requires Sound(l) && a.index <= Total(l.regions) && Pml4 in a.tables
    ensures var need := |NodesOf(PagesOf(ops)) - a.tables.Keys| + TakesOf(ops);
      && (Run(l, a, ops).Done? <==> a.index + need <= Total(l.regions))
      && (Run(l, a, ops).Done? ==> var b := Run(l, a, ops).value;
            && b.tables.Keys == a.tables.Keys + NodesOf(PagesOf(ops)) && b.index == a.index + need
            && b.pages == Updated(a.pages, ops))
    decreases |ops|
  {
    hide Step, Sound, Total, NodesOf;
    if ops == [] {
      NoPages(a.tables.Keys);
    } else {
      var op := ops[0];
      var A, B := NodesOf(PagesOf([op])), NodesOf(PagesOf(ops[1..]));
      SplitOps(ops);
      NodesOfUnion(PagesOf([op]), PagesOf(ops[1..]));
      StepCount(l, a, op);
      UnionSize(A, B, a.tables.Keys);
      if Step(l, a, op).Done? {
        RunCount(l, Step(l, a, op).value, ops[1..]);
      }
    }
  }

  /** A function that is one-to-one on A and maps it onto B gives them the same size. */
  lemma {:induction false} SameSize<T>(A: set<Node>, B: set<T>, f: Node -> T)
    requires forall n, k :: n in A && k in A && f(n) == f(k) ==> n == k
    requires forall n :: n in A ==> f(n) in B
    requires forall t :: t in B ==> exists n :: n in A && f(n) == t
    ensures |A| == |B|
    decreases A
  {
    if A == {} {
      assert B == {};
    } else {
      var n :| n in A;
      SameSize(A - {n}, B - {f(n)}, f);
    }
  }

  lemma {:induction false} PdptCount(K: set<VPage>)
    ensures |Pdpts(K)| == |set v | v in K :: v.i4|
  {
    var f := (n: Node) => if n.Pdpt? then n.i4 else 0;
    var B := set v | v in K :: v.i4;
    forall t | t in B
      ensures exists n :: n in Pdpts(K) && f(n) == t
    {
      var v :| v in K && v.i4 == t;
      assert Pdpt(v.i4) in Pdpts(K) && f(Pdpt(v.i4)) == t;
    }
    SameSize(Pdpts(K), B, f);
  }

  lemma {:induction false} PdCount(K: set<VPage>)
    ensures |Pds(K)| == |set v | v in K :: (v.i4, v.i3)|
  {
    var f := (n: Node) => if n.Pd? then (n.i4, n.i3) else (0, 0);
    var B := set v | v in K :: (v.i4, v.i3);
    forall t | t in B
      ensures exists n :: n in Pds(K) && f(n) == t
    {
      var v :| v in K && (v.i4, v.i3) == t;
      assert Pd(v.i4, v.i3) in Pds(K) && f(Pd(v.i4, v.i3)) == t;
    }
    SameSize(Pds(K), B, f);
  }

  lemma {:induction false} PtCount(K: set<VPage>)
    ensures |Pts(K)| == |set v | v in K :: (v.i4, v.i3, v.i2)|
  {
    var f := (n: Node) => if n.Pt? then (n.i4, n.i3, n.i2) else (0, 0, 0);
    var B := set v | v in K :: (v.i4, v.i3, v.i2);
    forall t | t in B
      ensures exists n :: n in Pts(K) && f(n) == t
    {
      var v :| v in K && (v.i4, v.i3, v.i2) == t;
      assert TableOf(v) in Pts(K) && f(TableOf(v)) == t;
    }
    SameSize(Pts(K), B, f);
  }

  /** Distinct PML4 indices, (PML4, PDPT) pairs and (PML4, PDPT, PD) triples: the number of tables. */
  lemma {:induction false} TableCount(K: set<VPage>)
    ensures |NodesOf(K)| == 1 + |set v | v in K :: v.i4| + |set v | v in K :: (v.i4, v.i3)|
                              + |set v | v in K :: (v.i4, v.i3, v.i2)|
  {
    assert NodesOf(K) == {Pml4} + (Pdpts(K) + (Pds(K) + Pts(K)));
    assert |Pds(K) + Pts(K)| == |Pds(K)| + |Pts(K)|;
    assert |Pdpts(K) + (Pds(K) + Pts(K))| == |Pdpts(K)| + |Pds(K)| + |Pts(K)|;
    PdptCount(K);
    PdCount(K);
    PtCount(K);
  }

  /** Frames that the operations take from the allocator. */
  function Need(a: Space, ops: seq<Op>): nat {
    |NodesOf(PagesOf(ops)) - a.tables.Keys| + TakesOf(ops)
  }

  lemma {:induction false} RunTakesNeed(l: Layout, a: Space, ops: seq<Op>)
    requires Sound(l) && a.index <= Total(l.regions) && Pml4 in a.tables
    ensures Run(l, a, ops).Done? <==> a.index + Need(a, ops) <= Total(l.regions)
    ensures Run(l, a, ops).Done? ==> Run(l, a, ops).value.index == a.index + Need(a, ops)
  {
    hide Sound, Total, NodesOf, PagesOf, TakesOf, Updated, Run;
    RunCount(l, a, ops);
  }

  /** The frames the operations take, on top of those handed out before, can all be trusted. */
  ghost predicate Covered(l: Layout, a: Space, ops: seq<Op>)
    requires Sound(l)
  {
    Trusted(l, a.index + Need(a, ops))
  }

  lemma {:induction false} OpsConcat(xs: seq<Op>, ys: seq<Op>)
    ensures PagesOf(xs + ys) == PagesOf(xs) + PagesOf(ys) && TakesOf(xs + ys) == TakesOf(xs) + TakesOf(ys)
    decreases |xs|
  {
    hide PageOf;
    if xs == [] {
      assert xs + ys == ys;
    } else {
      assert (xs + ys)[0] == xs[0] && (xs + ys)[1..] == xs[1..] + ys;
      OpsConcat(xs[1..], ys);
    }
  }

  /** Frames that one operation takes: for map_page, one per missing table of its path. */
  function OpNeed(a: Space, op: Op): nat {
    match op
    case Map(vaddr, _, _, _, _, _) => |Path(PageOf(vaddr)) - a.tables.Keys|
    case Take(_) => 1
    case Write(_, _, _) => 0
  }

  ghost predicate OpCovered(l: Layout, a: Space, op: Op)
    requires Sound(l)
  {
    Trusted(l, a.index + OpNeed(a, op))
  }

  lemma {:induction false} OneNeed(a: Space, op: Op)
    requires Pml4 in a.tables
    ensures Need(a, [op]) == OpNeed(a, op)
  {
    hide NodesOf, PagesOf, TakesOf, Updated, PageOf, LeafOf, Path;
    OneOp(op, a.pages);
    NoPages(a.tables.Keys);
  }

  /** A covered run has its first part covered, and its second part after the first. */
  lemma {:induction false} CoveredConcat(l: Layout, a: Space, xs: seq<Op>, ys: seq<Op>)
    requires Sound(l) && a.index <= Total(l.regions) && Pml4 in a.tables && Covered(l, a, xs + ys)
    ensures Covered(l, a, xs)
    ensures Run(l, a, xs).Done? ==>
      && Run(l, a, xs).value.index <= Total(l.regions) && Pml4 in Run(l, a, xs).value.tables
      && Covered(l, Run(l, a, xs).value, ys)
  {
    hide Run, Sound, Total, NodesOf, PagesOf, TakesOf, Updated, Trusted;
    OpsConcat(xs, ys);
    NodesOfUnion(PagesOf(xs), PagesOf(ys));
    UnionSize(NodesOf(PagesOf(xs)), NodesOf(PagesOf(ys)), a.tables.Keys);
    TrustedBelow(l, a.index + Need(a, xs + ys), a.index + Need(a, xs));
    RunCount(l, a, xs);
  }

  lemma {:induction false} RunConcat(l: Layout, a: Space, xs: seq<Op>, ys: seq<Op>)
    requires Sound(l)
    ensures Run(l, a, xs + ys) == match Run(l, a, xs) case Halt(site) => Halt(site) case Done(b) => Run(l, b, ys)
    decreases |xs|
  {
    hide Step, Sound;
    if xs == [] {
      assert xs + ys == ys;
    } else {
      assert (xs + ys)[0] == xs[0] && (xs + ys)[1..] == xs[1..] + ys;
      if Step(l, a, xs[0]).Done? {
        RunConcat(l, Step(l, a, xs[0]).value, xs[1..], ys);
      }
    }
  }

  lemma {:induction false} RunOne(l: Layout, a: Space, op: Op)
    requires Sound(l)
    ensures Run(l, a, [op]) == Step(l, a, op)
  {
    hide Step, Sound;
    assert [op][1..] == [];
  }

  lemma {:induction false} CoveredStep(l: Layout, a: Space, op: Op, ops: seq<Op>)
    requires Sound(l) && a.index <= Total(l.regions) && Pml4 in a.tables && Covered(l, a, [op] + ops)
    ensures OpCovered(l, a, op)
    ensures Step(l, a, op).Done? ==>
      && Step(l, a, op).value.index <= Total(l.regions) && Pml4 in Step(l, a, op).value.tables
      && Covered(l, Step(l, a, op).value, ops)
  {
    hide Run, Step, Sound, Total, Need, OpNeed, Trusted;
    RunOne(l, a, op);
    OneNeed(a, op);
    CoveredConcat(l, a, [op], ops);
  }

  /** If n needs a new table, the next frame can be trusted. */
  ghost predicate TableCovered(l: Layout, a: Space, n: Node)
    requires Sound(l)
  {
    n !in a.tables ==> Trusted(l, a.index + 1)
  }

  lemma {:induction false} TrustedBefore(l: Layout, n: nat)
    requires Sound(l) && Trusted(l, n)
    ensures forall k: nat :: k <= n ==> Trusted(l, k)
  {
    hide Trusted;
    forall k: nat | k <= n
      ensures Trusted(l, k)
    {
      TrustedBelow(l, n, k);
    }
  }

  /** If one call of map_page is covered, so is each table it creates on the way down. */
  lemma {:induction false} LevelsCovered(l: Layout, a: Space, op: Op)
    requires Sound(l) && a.index <= Total(l.regions) && Pml4 in a.tables && op.Map? && OpCovered(l, a, op)
    ensures var v := PageOf(op.vaddr);
      && TableCovered(l, a, Pdpt(v.i4))
      && (Ensure(l, a, Pdpt(v.i4)).Done? ==>
           var a3 := Ensure(l, a, Pdpt(v.i4)).value;
           && TableCovered(l, a3, Pd(v.i4, v.i3))
           && (Ensure(l, a3, Pd(v.i4, v.i3)).Done? ==>
                TableCovered(l, Ensure(l, a3, Pd(v.i4, v.i3)).value, TableOf(v))))
  {
    hide Ensure, Sound, Total, Path, PageOf, Trusted;
    var v := PageOf(op.vaddr);
    var n3, n2, n1 := Pdpt(v.i4), Pd(v.i4, v.i3), TableOf(v);
    PathMissing(v, a.tables.Keys);
    TrustedBefore(l, a.index + OpNeed(a, op));
    EnsureCount(l, a, n3);
    if Ensure(l, a, n3).Done? {
      var a3 := Ensure(l, a, n3).value;
      assert n2 in a3.tables.Keys <==> n2 in a.tables.Keys;
      EnsureCount(l, a3, n2);
      if Ensure(l, a3, n2).Done? {
        var a2 := Ensure(l, a3, n2).value;
        assert n1 in a2.tables.Keys <==> n1 in a.tables.Keys;
      }
    }
  }
}
