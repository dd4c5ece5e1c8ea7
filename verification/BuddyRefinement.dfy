// The buddy allocator meets the allocator specification, and what alloc-then-free does to the counter.
module BuddyRefinement {
  import opened BuddyTree
  import opened BuddySpec
  import opened BuddyTheorems
  import opened AllocatorSpec

  function ExtentOf(p: Path): Extent {
    Extent(Off(p), Size(p))
  }

  /** The address ranges callers currently own. */
  ghost function Owned(h: Heap): iset<Extent> {
    iset p | LiveLeaf(h.tree, p) :: ExtentOf(p)
  }

  lemma OwnedSeparated(h: Heap)
    requires Inv(h)
    ensures Separated(Owned(h), TOTAL_HEAP_SIZE)
  {
    LeavesTile(h.tree);
    forall a, b | a in Owned(h) && b in Owned(h) && a != b
      ensures Apart(a, b)
    {
      var p :| LiveLeaf(h.tree, p) && ExtentOf(p) == a;
      var q :| LiveLeaf(h.tree, q) && ExtentOf(q) == b;
      assert RangesDisjoint(p, q);
    }
  }

  lemma OwnedInjective(h: Heap, p: Path, q: Path)
    requires Inv(h) && LiveLeaf(h.tree, p) && LiveLeaf(h.tree, q) && ExtentOf(p) == ExtentOf(q)
    ensures p == q
  {
    if p != q { OffsetsDiffer(h.tree, p, q); }
  }

  /** A grant adds exactly one range, apart from every range already owned. */
  lemma BuddyAllocates(h: Heap, n: nat)
    requires Inv(h) && Alloc(h, n).Granted?
    ensures var r := Alloc(h, n);
            Allocates(Owned(h), ExtentOf(r.block), Owned(r.heap), TOTAL_HEAP_SIZE)
  {
    var r := Alloc(h, n);
    AllocKeeps(h, n);
    OwnedSeparated(r.heap);
    var e := ExtentOf(r.block);
    assert LiveLeaf(r.heap.tree, r.block);
    if e in Owned(h) {
      var p :| LiveLeaf(h.tree, p) && ExtentOf(p) == e;
      assert LiveLeaf(r.heap.tree, p);
      OwnedInjective(r.heap, p, r.block);
    }
    forall x
      ensures x in Owned(r.heap) <==> x in Owned(h) || x == e
    {
      if x in Owned(h) {
        var p :| LiveLeaf(h.tree, p) && ExtentOf(p) == x;
        assert LiveLeaf(r.heap.tree, p);
      }
      if x in Owned(r.heap) {
        var p :| LiveLeaf(r.heap.tree, p) && ExtentOf(p) == x;
        assert LiveLeaf(h.tree, p) || p == r.block;
      }
    }
  }

  /** A free removes exactly the range freed, however many merges it triggers. */
  lemma BuddyFrees(h: Heap, p: Path)
    requires Inv(h) && LiveLeaf(h.tree, p)
    ensures Frees(Owned(h), ExtentOf(p), Owned(Release(h, p).heap))
  {
    var g := Release(h, p).heap;
    ReleaseKeeps(h, p);
    forall x
      ensures x in Owned(g) <==> x in Owned(h) && x != ExtentOf(p)
    {
      if x in Owned(g) {
        var q :| LiveLeaf(g.tree, q) && ExtentOf(q) == x;
        assert LiveLeaf(h.tree, q) && q != p;
        if x == ExtentOf(p) { OwnedInjective(h, p, q); }
      }
      if x in Owned(h) && x != ExtentOf(p) {
        var q :| LiveLeaf(h.tree, q) && ExtentOf(q) == x;
        assert LiveLeaf(g.tree, q);
      }
    }
  }

  /** The ranges callers hold, as they can tell from what they were given and what they gave back. */
  ghost function Booked(held: iset<Extent>, m: Manager, op: Op): iset<Extent> {
    match op
    case AllocOp(n) => (
      match Alloc(m.heap, n)
      case Refused => held
      case Granted(_, q) => held + iset{ExtentOf(q)}
    )
    case FreeOp(p) => held - iset{ExtentOf(p)}
  }

  ghost function Bookkeeping(held: iset<Extent>, m: Manager, ops: seq<Op>): iset<Extent>
    decreases |ops|
  {
    if ops == [] then held else Bookkeeping(Booked(held, m, ops[0]), Step(m, ops[0]), ops[1..])
  }

  lemma StepOwned(m: Manager, op: Op)
    requires Inv(m.heap) && LegalStep(m, op)
    ensures Owned(Step(m, op).heap) == Booked(Owned(m.heap), m, op)
  {
    match op
    case AllocOp(n) => if Alloc(m.heap, n).Granted? { BuddyAllocates(m.heap, n); }
    case FreeOp(p) => BuddyFrees(m.heap, p);
  }

  lemma {:induction false} RunOwned(m: Manager, ops: seq<Op>)
    requires Inv(m.heap) && Legal(m, ops)
    ensures Owned(Run(m, ops).heap) == Bookkeeping(Owned(m.heap), m, ops)
    decreases |ops|
  {
    if ops == [] {
    } else {
      StepOwned(m, ops[0]);
      StepKeeps(m, ops[0]);
      RunOwned(Step(m, ops[0]), ops[1..]);
    }
  }

  /** After any legal run the ranges the heap treats as taken are exactly those granted and not given
      back since; they lie in the 128 MiB and never overlap. */
  lemma OwnedIsHeld(ops: seq<Op>)
    requires Legal(INITIAL, ops)
    ensures var h := Run(INITIAL, ops).heap;
            Owned(h) == Bookkeeping(iset{}, INITIAL, ops) && Separated(Owned(h), 0x800_0000)
  {
    InitInv();
    assert Owned(EMPTY_HEAP) == iset{};
    RunOwned(INITIAL, ops);
    RunKeeps(INITIAL, ops);
    OwnedSeparated(Run(INITIAL, ops).heap);
  }

  /** Allocating and at once freeing restores the heap; the counter as written is restored too
      exactly when the block was granted without a split. */
  lemma AllocThenFreeCounter(m: Manager, n: nat)
    requires Inv(m.heap) && m.freeBytes < WORD && Alloc(m.heap, n).Granted?
    ensures var q := Alloc(m.heap, n).block;
            var m' := Step(Step(m, AllocOp(n)), FreeOp(q));
            && m'.heap == m.heap
            && (m'.freeBytes == m.freeBytes <==> q in m.heap.list)
  {
    var i := FirstFit(m.heap.list, Adjusted(n));
    AllocThenFreeIsIdentity(m.heap, n);
    FreedWhole(m.heap, i, Adjusted(n));
    DebitCredit(m.freeBytes, Size(Alloc(m.heap, n).block), Size(m.heap.list[i]));
  }

  /** Giving back what was carved from the first fit lists that whole block; what was carved is a
      listed block itself exactly when nothing was cut, and it has the block's size exactly then. */
  lemma FreedWhole(h: Heap, i: nat, req: nat)
    requires Inv(h) && i == FirstFit(h.list, req) && i < |h.list| && req <= TOTAL_HEAP_SIZE
    ensures var c, p := Split(Take(h, i), h.list[i], req), h.list[i];
            && Release(c.heap, c.block).block == p
            && Size(c.block) <= Size(p) <= TOTAL_HEAP_SIZE
            && (Size(c.block) == Size(p) <==> c.block in h.list)
  {
    var p := h.list[i];
    var q := Split(Take(h, i), p, req).block;
    TakeThenRelease(h, req);
    TakeKeeps(h, i);
    SplitThenRelease(Take(h, i), p, req);
    SplitKeeps(Take(h, i), p, req);
    SizeAntitone(|p|, |q|);
    SizeAntitone(0, |p|);
    CarvedUnlisted(h, p, q);
  }

  lemma CarvedUnlisted(h: Heap, p: Path, q: Path)
    requires Inv(h) && p in h.list && p <= q
    ensures q in h.list <==> p == q
  {
    assert FreeLeaf(h.tree, p);
    if p != q && FreeLeaf(h.tree, q) { LeavesIncomparable(h.tree, p, q); }
  }

  lemma DebitCredit(f: nat, a: nat, b: nat)
    requires f < WORD && a <= b < WORD
    ensures Credit(Debit(f, a), b) == f <==> a == b
  {
    CounterMod(f, a);
    assert f % WORD == f;
    assert Debit(f, a) == if f >= a then f - a else f - a + WORD;
  }
}
